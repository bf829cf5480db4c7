# A verified model of the NXP SR1xx UWB HAL

The project models the parts of the SR1xx ultra-wideband HAL that compute something, in Dafny 4.11, and
proves what they are for. `dafny verify dfyconfig.toml` checks all of it.

- **UCI packets and country regulation.** `AppConfigFilter` drops unsupported parameters from
  SET_APP_CONFIG commands; `ChannelGate` refuses commands that ask for a restricted channel; `CapsInfo` and
  `CapsMask` (with the tag map of `TagMap`) rewrite capability responses; `CountryCaps` turns a country's
  section of the capability blob into settings; `CountryCode` handles the set-country command; `Regulation`
  puts them together behind `write_unlocked` and `read_complete`. Packets are byte sequences, decoded by the
  reference codec in `Tlv`; headers are in `Uci`, fixed-width arithmetic in `Bytes`.
- **Configuration.** `ConfigParser` is the eleven-state reader of configuration files, `ConfigLines` what lines
  with numbers and byte arrays read as, `Cascade` the layered lookup that follows the region.
- **Transport.** `LinkedList` and `MessageQueue` are the queue between threads; `Tml` the reader, writer and
  client threads as steps between which the others may interfere.
- **Firmware download.** `Lrc` is the link's checksum, `Hbci` the protocol as functions over a link, with a
  receiver, `HbciDownload` when downloads succeed and what they look like in bytes, and `HbciHost` the code with
  its send and receive structures.
- **Commands.** `RetryLoop` is the command/response loop, `TxPower` the in-place update of antenna powers.

Code that works in place is modelled by methods over arrays and objects, each proved equal to a function of
the old state; the properties are lemmas about those functions. Protocols between threads are step
relations, and a schedule is any sequence of possible steps. The device, the contents of files, the bytes
behind a buffer's end and the outcomes of system calls are parameters.

Tags are read in three styles, which differ in the lead bytes of two-byte tags (`Tlv.TagStyle`): as the device
means them (0xE0, 0xE3), as the command filter and the tag map take them (0xE0 to 0xE2), and as one byte each.
A list is well-formed, and a packet is read, in one of these; the upper layer's style is a parameter.

Where the code does not do what its comments or its structure promise, the model follows the code. These
places are stated as theorems, each with the exact condition or a family of inputs:

- the filter's loop stands still on a parameter of 256 bytes (`OversizedParamStalls`), and goes on inside one
  of 257 or 258 bytes (`OversizedParamIsCutUp`);
- the channel gate keeps lengths in one byte, so that payloads from 252 to 255 bytes, and some longer ones,
  are not checked at all (`GateIsExactUpTo251`, `UncheckedLengths`), and it reads two-byte tags as one-byte
  ones (`GateGoesByOneByteReading`, `TwoByteTagHidesChannels`, `GateAtOverrun`, `GateWraps`);
- on well-formed commands with a tag 0xE0FE, 0xE1FE or 0xE2FE, alone or behind one-byte tags, the gate's loop
  never ends, and the HAL hangs with its lock held (`CheckNeverEnds`, `GateHangs`, `EndsIff`);
- the tag map refuses bytes that are no list of TLVs to it, and a list whose last value is empty
  (`ParsesIffDecodes`, `ParseSucceedsIff`); such a response goes up with all its channels
  (`RestrictedGoesUpIff`, `TagMapReaderIff`), and what had been read of it shows in the next one
  (`StaleEntryIsShown`);
- without configured vendor capabilities, which is how the SR1XX configuration is shipped, the device's own
  vendor TLVs stay in the packet, and the tag map reads 0xE3 as a one-byte tag: such a response may not parse
  and go up with all its channels (`DeviceResponseGoesUpIff`, `VendorTagParsesIff`, `MisreadGoesUp`), or it
  may parse with the channel masks hidden in a value (`VendorTagHidesChannels`), or with a mask of several
  bytes, which is cut and ANDed with what lies behind the configured one
  (`VendorTagBringsLongMask`, `LongMaskIsCut`); and the AoA value is written over the value in front of it, be
  that the channel mask (`OverwrittenIsStamped`, `AoaOverwritesChannels`);
- restrictions from calibration files reach the configuration gate only (`GatesAgreeIff`);
- a country whose region is already loaded keeps the restrictions of the code that entered the region
  (`RestrictedIffEnteringCodeForbidden`, `AskingIsRefusedIff`, `SharedRegionCommand`);
- an invalid country code leaves UWB on when its region has no capabilities but an earlier one had
  (`UwbOffIffFilesAreSafe`, `UnsafeFilesExist`);
- a country listed in two regions of different names gets one or the other by the map's iteration order
  (`XlateDependsOnOrderIff`);
- a reader that gives up waiting delivers a response before the write's completion (`GivingUpBreaksOrder`);
- an interrupted semaphore wait can come back without a message (`MissesNeedInterrupts`);
- a header read that delivers too few bytes succeeds, and the host then finds the acknowledgement of an
  earlier APDU (`AcknowledgedByDeviceIff`, `SilentDeviceIsBelieved`, `OneAcknowledgementIsEnough`);
- a device that reports success at once is believed, without any image sent (`ImageSentIffGeneralAnswer`,
  `SuccessWithoutImage`);
- the comment at uwb/halimpl/fwd/sr1xx/phNxpUciHal_fwd.cc:698 names longitudinal parity (ISO 1155:1978), the
  code computes a two's complement sum (`IntactIffLrc`);
- the retry loop reports success when the wait, or a repetition's write, fails (`FalseSuccessIff`), and
  failure for every chained command (`ProcessExtCmdRsp`);
- power offsets do not add up when a sum clamps or wraps (`OffsetsAddUpIff`), and with more than 50 antennas
  the 51st one's power is added up in the entry's head, so that the update is never exact
  (`FiftyFirstAntennaWraps`, `ExactIffFiftyAntennas`).

## Model

| member | source | states |
|---|---|---|
| `Bytes.BitOfAnd` | uwb/halimpl/hal/phNxpUciHal.cc:370-371 | the bits of `&` are the bits both operands have, so masking can only take channels away |
| `Bytes.BitOfOr` | uwb/halimpl/hal/phNxpUciHal_ext.cc:381-387 | the bits of the accumulated restriction mask are those of either operand |
| `Tlv.DecodeEncode` | uwb/halimpl/hal/phNxpUciHal.cc:205-238 | decoding undoes encoding, for each of the three ways the code recognises two-byte tags |
| `Tlv.EncodeDecode` | uwb/halimpl/hal/phNxpUciHal.cc:205-238 | and encoding undoes decoding: what the decoder accepts is exactly the encodings |
| `Tlv.TagsOfStyle` | uwb/halimpl/hal/phNxpUciHal.cc:205-208 | which tags each style knows, by their values |
| `Uci.KindsByBytes` | uwb/halimpl/hal/phNxpUciHal.cc:275-285 | the first two bytes of the four kinds of message the HAL looks into, continuation bit set or not |
| `AppConfigFilter.HandleVendorAppConfig` | uwb/halimpl/hal/phNxpUciHal.cc:175-264 | in place, the command becomes the filtered one and the bytes behind it stay; every early return leaves buffer and length unchanged |
| `AppConfigFilter.FilterRefinesDecodeFilterEncode` | uwb/halimpl/hal/phNxpUciHal.cc:202-262 | a command carrying a parameter list becomes the command carrying the supported ones in order, with consistent length and count bytes and the same header and session |
| `AppConfigFilter.CommandIsFiltered` | uwb/halimpl/hal/phNxpUciHal.cc:202-262 | in bytes: header, big-endian length, session, count and parameters become those of the command with the supported parameters |
| `AppConfigFilter.KeepMembers` | uwb/halimpl/hal/phNxpUciHal.cc:228-237 | a parameter survives exactly when it was there and its tag is not 0x1C, 0xE3, 0xE4 or 0xE5 |
| `AppConfigFilter.FilterIsIdempotent` | uwb/halimpl/hal/phNxpUciHal.cc:175-264 | filtering twice is filtering once, for all byte sequences on which the loop ends, wrapped sizes included |
| `AppConfigFilter.OversizedParamStalls` | uwb/halimpl/hal/phNxpUciHal.cc:205-238 | after any fitting parameters, one of exactly 256 bytes makes the loop stand still |
| `AppConfigFilter.OversizedParamIsCutUp` | uwb/halimpl/hal/phNxpUciHal.cc:205-238 | after any fitting parameters, one of 257 or 258 bytes is stepped into: its first byte or two are kept or cut out, and the loop ends, and what it yields, is as on the bytes behind them |
| `ChannelGate.CheckChannels` | uwb/halimpl/hal/phNxpUciHal.cc:302-330 | the loop with its uint8_t indices refuses exactly when the specified scan does |
| `ChannelGate.VerdictIs` | uwb/halimpl/hal/phNxpUciHal.cc:307-329 | a verdict reached in any number of iterations is the verdict |
| `ChannelGate.GateIsExactUpTo251` | uwb/halimpl/hal/phNxpUciHal.cc:302-330 | a command with one-byte tags is refused if and only if its length byte is at most 251 and it asks for a restricted channel |
| `ChannelGate.EndsIff` | uwb/halimpl/hal/phNxpUciHal.cc:303-328 | the loop ends if and only if it does within 256 iterations, so whether it does can be decided for every command |
| `ChannelGate.GateGoesByOneByteReading` | uwb/halimpl/hal/phNxpUciHal.cc:307-329 | when the bytes of a command with two-byte tags are also parameters with one-byte tags, these decide, so the gate is right about it if and only if both readings ask for a restricted channel or neither does |
| `ChannelGate.GateAtOverrun` | uwb/halimpl/hal/phNxpUciHal.cc:307-329 | when the one-byte reading overruns the end without wrapping, the gate goes by the parameters read so far and the last tag |
| `ChannelGate.GateWraps` | uwb/halimpl/hal/phNxpUciHal.cc:307-329 | when it wraps, the gate goes on at the wrapped index, unless one of these is refused |
| `ChannelGate.GateHangs` | uwb/halimpl/hal/phNxpUciHal.cc:307-329 | at a head whose second byte is 0xFE, inside the range and behind parameters that ask for nothing restricted, the loop never ends |
| `ChannelGate.TwoByteTagHidesChannels` | uwb/halimpl/hal/phNxpUciHal.cc:307-329 | a two-byte tag whose second byte counts all that follows makes the gate miss every channel asked for behind it |
| `TagMap.PutIsUpdate` | uwb/halimpl/utils/phNxpUciHal_utils.cc:550-556 | storing under a tag changes that tag's entry and no other |
| `TagMap.Parse` | uwb/halimpl/utils/phNxpUciHal_utils.cc:520-561 | the index loop's result and map, also on failure, are those of the specified parser |
| `TagMap.ParseEncoded` | uwb/halimpl/utils/phNxpUciHal_utils.cc:520-611 | a well-formed list whose last value is not empty is taken over completely, over what the map held |
| `TagMap.ParseStopsAtEmptyLast` | uwb/halimpl/utils/phNxpUciHal_utils.cc:538-549 | with an empty last value parsing fails after putting everything in front of it into the map |
| `TagMap.ParseSucceedsIff` | uwb/halimpl/utils/phNxpUciHal_utils.cc:520-561 | on a list that is well-formed in the tag map's own reading, parsing succeeds if and only if the last value is not empty |
| `TagMap.ParsesIffDecodes` | uwb/halimpl/utils/phNxpUciHal_utils.cc:520-561 | for arbitrary bytes: they parse if and only if they decode to a list, in the tag map's reading, whose last value is not empty, and then exactly that list is put into the map |
| `TagMap.ParseGrows` | uwb/halimpl/utils/phNxpUciHal_utils.cc:520-561 | for arbitrary bytes the printed map grows by at most what was received |
| `TagMap.PrintIsEncode` | uwb/halimpl/hal/phNxpUciHal.cc:385-399 | printing the map is encoding its entries as TLVs, and those are well-formed |
| `CapsMask.CapsResponder.Respond` | uwb/halimpl/hal/phNxpUciHal.cc:331-408 | a successful response is replaced, in the forwarded packets, by the masked map's packet and marked skipped, masks longer than the configured ones being ANDed with what lies behind these; otherwise nothing is forwarded and only a failed parse leaves entries behind |
| `CapsMask.RewriteIsParseMaskPrint` | uwb/halimpl/hal/phNxpUciHal.cc:342-408 | from an empty map: parsing succeeds, and the replacement has the response's length, header and status, consistent length and count bytes, and decodes to the masked list |
| `CapsMask.ReplacementIsSorted` | uwb/halimpl/hal/phNxpUciHal.cc:385-399 | that list has as many TLVs as the response, in the order of their tags |
| `CapsMask.RewriteMasksChannelsOnly` | uwb/halimpl/hal/phNxpUciHal.cc:359-378 | for every inherited map and every list, duplicates included: every tag shows the response's last value, or else the inherited one, except that the two channel masks are ANDed with the country's |
| `CapsMask.StaleEntryIsShown` | uwb/halimpl/hal/phNxpUciHal.cc:346-353 | an entry left by a response that failed to parse appears in the next replacement that does not set its tag |
| `CapsMask.StaysInherited` | uwb/halimpl/utils/phNxpUciHal_utils.cc:520-561 | whatever bytes are received, and whether they parse or not, the map stays in tag order with proper entries |
| `CapsMask.StaysByteMasks` | uwb/halimpl/utils/phNxpUciHal_utils.cc:520-561 | its channel masks stay one byte long if all that are read are |
| `CapsMask.LongMaskIsCut` | uwb/halimpl/hal/phNxpUciHal.cc:370-374 | a longer mask loses its length, which becomes 0 or 1, and its bytes from the second on are ANDed with what lies behind the configured mask |
| `CapsInfo.ParseGetCapsInfo` | uwb/halimpl/hal/phNxpUciHal.cc:702-815 | with configured vendor capabilities the packet becomes that of the rewritten list followed by the configured one, with length and count bytes that say so; without them the received packet stays but for the bytes the AoA value is written over; other packets stay |
| `CapsInfo.OverwrittenIsStamped` | uwb/halimpl/hal/phNxpUciHal.cc:725-746 | that packet then carries the received list with the first byte of every value in front of an AoA TLV replaced by the AoA value |
| `CapsInfo.AoaOverwritesChannels` | uwb/halimpl/hal/phNxpUciHal.cc:725-746 | one of these bytes is the channel mask, wherever an AoA TLV stands right behind it |
| `CapsInfo.AoaStampsPrevious` | uwb/halimpl/hal/phNxpUciHal.cc:725-746 | otherwise: the first byte of a value with an AoA TLV next, behind vendor TLVs or not, becomes 0, 1 or 5 by the antennas, and the rest of that value stays |
| `CapsInfo.OthersStay` | uwb/halimpl/hal/phNxpUciHal.cc:725-746 | all other TLVs of the received packet stay as they are |
| `CapsInfo.EmittedIsEncoded` | uwb/halimpl/hal/phNxpUciHal.cc:748-756 | with CCC versions of two bytes, what the loop writes out is the encoding of the rewritten list, for AoA values of any length and every antenna configuration |
| `CapsInfo.RewrittenAsMeant` | uwb/halimpl/hal/phNxpUciHal.cc:716-780 | with AoA values of one byte, and a pair if antennas are defined, the rewritten list is the device's without the vendor TLVs, the AoA value and the CCC version replaced |
| `CapsInfo.PassedOn` | uwb/halimpl/hal/phNxpUciHal.cc:725-756 | the TLVs with one-byte tags are passed on in order: under 0x13 the first value byte is 0 without antennas, 1 for one pair, 5 for more; two bytes under 0xA4 are swapped; all others are kept |
| `CapsInfo.AoaCopiesPrevious` | uwb/halimpl/hal/phNxpUciHal.cc:725-756 | with antennas defined without a pair, a one-byte AoA value is a copy of the first byte of the value in front of it |
| `CapsInfo.NothingOverwritten` | uwb/halimpl/hal/phNxpUciHal.cc:725-746 | and the received packet is not written to |
| `CapsInfo.RewrittenSize` | uwb/halimpl/hal/phNxpUciHal.cc:724-778 | replaced TLVs keep their size, so the length falls by exactly the dropped vendor TLVs |
| `CapsInfo.RewriteAll` | uwb/halimpl/hal/phNxpUciHal.cc:716-780 | the two-stream loop writes what is specified byte for byte to its output and over its input, and counts right, for every well-formed response |
| `CapsInfo.CountParams` | uwb/halimpl/hal/phNxpUciHal.cc:787-797 | walking the configured bytes counts their TLVs |
| `CountryCaps.ApplyCountryCaps` | uwb/halimpl/hal/phNxpUciHal_ext.cc:356-442 | in place, the settings become those of the scan and the output the two channel TLVs for the resulting mask |
| `CountryCaps.CapsAreAFoldOverSections` | uwb/halimpl/hal/phNxpUciHal_ext.cc:360-415 | the settings are a fold over the TLVs in the sections with the requested code, and an invalid code switches UWB off whatever they say |
| `CountryCaps.OtherSectionsDoNotInterfere` | uwb/halimpl/hal/phNxpUciHal_ext.cc:360-407 | blobs that agree on the requested code's sections give the same settings |
| `CountryCaps.FiraMask` | uwb/halimpl/hal/phNxpUciHal_ext.cc:416-422 | the FiRa mask lacks bit 0 exactly when channel 5 is restricted, bit 3 exactly when channel 9 is, and no other bit |
| `CountryCaps.CccMask` | uwb/halimpl/hal/phNxpUciHal_ext.cc:423-428 | the CCC mask has bit 0 or 1 exactly when channel 5 or 9 is not restricted, and no other bit |
| `CountryCaps.CapsRestrictExactly` | uwb/halimpl/hal/phNxpUciHal_ext.cc:360-407 | a channel ends up restricted if and only if one of the country's own sections forbids it, whatever stands around |
| `CountryCaps.LastSwitchCounts` | uwb/halimpl/hal/phNxpUciHal_ext.cc:373-377 | of several UWB switches in the country's settings the last one counts |
| `CountryCaps.SwitchAndPower` | uwb/halimpl/hal/phNxpUciHal_ext.cc:360-415 | UWB is on if and only if the code is valid and the last switch in its own sections, if any, is not zero; the power offsets in its sections are sent in order and the last one stays |
| `CountryCaps.OffsetsAreSent` | uwb/halimpl/hal/phNxpUciHal_ext.cc:391-398 | power offsets are read as two bytes of two's complement, low byte first |
| `CountryCode.Country.HandleSetCountryCode` | uwb/halimpl/hal/phNxpUciHal_ext.cc:1313-1370 | configuration, settings and capability map change as specified, nothing within the same region, and one reply goes up, 4C 01 00 01 00 if UWB is on and 4C 01 00 01 53 if it is off |
| `CountryCode.Country.ApplyRestrictions` | uwb/halimpl/hal/phNxpUciHal_ext.cc:1250-1275 | the settings become those of the calibration files, off for an invalid code |
| `CountryCode.LoadedFollows` | uwb/halimpl/hal/phNxpUciHal_ext.cc:1327-1327 | after any commands the configuration is that of the last code's region |
| `CountryCode.StepToInvalidCode` | uwb/halimpl/hal/phNxpUciHal_ext.cc:1327-1360 | a step to an invalid code's region ends with UWB off if and only if that region has capabilities, no map exists, or UWB was off |
| `CountryCode.OffInvariant` | uwb/halimpl/hal/phNxpUciHal_ext.cc:1313-1370 | with safe files every run keeps UWB off before the first region and in the region of every invalid code |
| `CountryCode.SafeFilesKeepUwbOff` | uwb/halimpl/hal/phNxpUciHal_ext.cc:1313-1370 | with safe files no run of set-country commands that ends in an invalid code leaves UWB on, unchanged regions included |
| `CountryCode.UwbOffIffFilesAreSafe` | uwb/halimpl/hal/phNxpUciHal_ext.cc:1313-1370 | the guarantee over all runs, each command with its own stack contents, holds if and only if every invalid code has capabilities or no code's capabilities leave UWB on |
| `CountryCode.AnswerIs` | uwb/halimpl/hal/phNxpUciHal_ext.cc:1363-1369 | in every run, each command is answered in bytes by whether the commands up to it leave UWB on |
| `CountryCode.InvalidCodeIsAnsweredOffIff` | uwb/halimpl/hal/phNxpUciHal_ext.cc:1313-1370 | every run that ends in an invalid code, told by its two bytes, ends with the answer 4C 01 00 01 53, if and only if the files are safe |
| `CountryCode.CalibrationSettings` | uwb/halimpl/hal/phNxpUciHal_ext.cc:1250-1275 | the names the settings are looked up under, and the widths and defaults they are read with |
| `CountryCode.CalibrationFile` | uwb/halimpl/hal/phNxpUciHal_ext.cc:1250-1275 | from the characters of a calibration file to the settings: the hexadecimal digits of its line are the channel mask after every first country code, and UWB is on exactly for the valid ones |
| `CountryCode.MaskForChannel5` | uwb/halimpl/hal/phNxpUciHal_ext.cc:1250-1275 | so a file that says 0x20 closes channel 5 and not channel 9 |
| `CountryCode.UnsafeFilesExist` | uwb/halimpl/hal/phNxpUciHal_ext.cc:1327-1349 | files that are not safe: capabilities for one country, written by the printer of `ConfigParser`, and none for "00" |
| `CountryCode.SettingsAreOfEnteringCode` | uwb/halimpl/hal/phNxpUciHal_ext.cc:1327-1340 | after every run that ends in a region with a blob, the settings are those of the blob under the code that entered the region |
| `Regulation.Hal.WriteUnlocked` | uwb/halimpl/hal/phNxpUciHal.cc:610-668 | a command of bad length changes nothing; a set-country command and a refused one are consumed and never written, and answered with the bytes of the country reply or of the refusal; every other one is written once, filtered |
| `Regulation.Hal.ParseCommand` | uwb/halimpl/hal/phNxpUciHal.cc:275-330 | which commands are consumed, with which answer, and what stays in the buffer of the others |
| `Regulation.DispatchedByBytes` | uwb/halimpl/hal/phNxpUciHal.cc:275-330 | by the first bytes of a command: which one gives a country code, and which two bytes of it or "00"; which are refused, adjusted or filtered; and that all others are sent as they are |
| `Regulation.UnitedStates` | uwb/halimpl/hal/phNxpUciHal.cc:285-296 | the command 2C 01 00 02 55 53 is the one for the country "US", and enters the region that lists it |
| `Regulation.CalibrationIsAdjusted` | uwb/halimpl/hal/phNxpUciHal_ext.cc:483-535 | a TX power calibration goes out with the country's offset added to every antenna's little-endian power, negative sums as zero, and no other byte changed, for up to 50 antennas |
| `Regulation.CalibrationStays` | uwb/halimpl/hal/phNxpUciHal_ext.cc:483-494 | without an offset, or with a length byte of zero, it goes out as it is |
| `Regulation.ConfigurationGate` | uwb/halimpl/hal/phNxpUciHal.cc:636-649 | behind the filter, a well-formed SET_APP_CONFIG is refused if and only if it asks for a restricted channel and its filtered payload is at most 251 bytes; otherwise exactly the filtered command is sent |
| `Regulation.UncheckedLengths` | uwb/halimpl/hal/phNxpUciHal.cc:303-307 | filtered payloads whose length ends in 252 to 255 or 0 to 5 are sent whatever they ask for |
| `Regulation.CheckNeverEnds` | uwb/halimpl/hal/phNxpUciHal.cc:303-328 | behind the filter: on every well-formed command left with a two-byte tag that ends in 0xFE, inside the range that is looked at and behind one-byte tags that ask for nothing restricted, the gate never ends |
| `Regulation.ForwardCaps` | uwb/halimpl/hal/phNxpUciHal.cc:831-994 | exactly one packet goes up for a well-formed capability response, and it is known byte for byte: the masked map, or, without a capability map and when parsing fails, what the first rewriting left; so is what stays in the tag map |
| `Regulation.FirstPacketCarries` | uwb/halimpl/hal/phNxpUciHal.cc:702-815 | as the device means tags, the first rewriting leaves a packet that carries the stamped list, or the rewritten and the configured one |
| `Regulation.FirstPacketPassesOn` | uwb/halimpl/hal/phNxpUciHal.cc:702-815 | with configured vendor capabilities, in every such packet: the header 40 03 00, status 0, the device's TLVs with one-byte tags in order, the AoA value 0, 1 or 5 by the antennas, CCC versions swapped, all else as it was, then the configured ones |
| `Regulation.FirstPacketCopies` | uwb/halimpl/hal/phNxpUciHal.cc:725-756 | with antennas defined without a pair, the AoA value there is a copy of the byte in front |
| `Regulation.FirstPacketIsStamped` | uwb/halimpl/hal/phNxpUciHal.cc:725-746 | without configured capabilities: the device's TLVs, with 0, 1 or 5 as the first byte of each value that has an AoA TLV next, and nothing else changed |
| `Regulation.MapFollows` | uwb/halimpl/hal/phNxpUciHal_ext.cc:1333-1347 | after every history of country codes an existing capability map holds the masks of the settings the configuration gate uses |
| `Regulation.RestrictedGoesUpIff` | uwb/halimpl/hal/phNxpUciHal.cc:337-399 | after every history of country codes, for every successful response, whatever its bytes, every inherited map whose parsed masks have one byte, and every style of reading tags: if there is no capability map or the response does not parse, a restricted channel goes up if and only if the response advertises it; otherwise if and only if the parsed tags from 0xE0 on do |
| `Regulation.DeviceResponseGoesUpIff` | uwb/halimpl/hal/phNxpUciHal.cc:831-994 | the same from the device's list on, as the device means tags, through the first rewriting with or without configured vendor capabilities; the first case is the packet itself |
| `Regulation.ReadAlikeGoesUpIff` | uwb/halimpl/hal/phNxpUciHal.cc:337-399 | to a reader who takes the parsed tags as the tag map does, a restricted channel goes up if and only if the response advertises it and there is no capability map or it does not parse |
| `Regulation.TagMapReaderIff` | uwb/halimpl/hal/phNxpUciHal.cc:337-356 | to a reader in the tag map's own style: if and only if the response advertises it and there is no capability map or the last value is empty |
| `Regulation.VendorTagParsesIff` | uwb/halimpl/utils/phNxpUciHal_utils.cc:528-552 | a response with a 0xE3 tag parses if and only if what stands behind the bytes that its second tag byte counts is again a list whose last value is not empty |
| `Regulation.MisreadGoesUp` | uwb/halimpl/hal/phNxpUciHal.cc:346-353 | so when that byte counts all but one of the bytes behind it, or more than there are, the packet goes up as it is, with all its channels, in every state |
| `Regulation.GatesAgreeIff` | uwb/halimpl/hal/phNxpUciHal.cc:337-356 | no response lets a restricted channel go up, to a reader in whatever style, if and only if nothing is restricted; no response that parses does, in the tag map's style, if and only if the capability map exists or nothing is restricted, and as the device means tags, again only if nothing is restricted |
| `Regulation.CapabilitiesStay` | uwb/halimpl/hal/phNxpUciHal.cc:357-408 | the other half, for every response that parses and every inherited map, in the tag map's reading: every other FiRa bit, every CCC bit that stands for a channel, and every other capability is the response's last one, or else the inherited one |
| `Regulation.VendorTagHidesChannels` | uwb/halimpl/utils/phNxpUciHal_utils.cc:528-552 | a vendor TLV in front whose second tag byte counts all that follows makes the response parse as one TLV, and its TLV bytes go up as they were, with all its channels as the device means tags |
| `Regulation.VendorTagBringsLongMask` | uwb/halimpl/utils/phNxpUciHal_utils.cc:528-552 | a vendor TLV whose value holds the head of a channel mask leaves a mask of that many bytes in the map |
| `Regulation.RestrictedIffEnteringCodeForbidden` | uwb/halimpl/hal/phNxpUciHal_ext.cc:1327-1340 | after every run that ends in a region with a well-formed blob there is a capability map, and a channel is restricted if and only if the blob forbids it to the code that entered the region |
| `Regulation.ForbiddenChannelGoesUpIff` | uwb/halimpl/hal/phNxpUciHal.cc:331-408 | from the blob to the advertising gate: a channel forbidden to the entering code goes up as it stands in every response that does not parse, and otherwise exactly if the reader finds it among the parsed tags from 0xE0 on |
| `Regulation.AskingIsRefusedIff` | uwb/halimpl/hal/phNxpUciHal.cc:302-330 | from the blob to the configuration gate: a SET_APP_CONFIG that asks for one of the two channels is refused if and only if the blob forbids it to the entering code, and sent, filtered, otherwise |
| `Regulation.SharedRegionKeepsChannelOpen` | uwb/halimpl/hal/phNxpUciHal_ext.cc:1327-1327 | files under which a channel forbidden to a country is restricted when the country enters its region, and is not when another country of the region was there first |
| `Regulation.SharedRegionCommand` | uwb/halimpl/hal/phNxpUciHal.cc:302-330 | under these files the same command, with the same country set, is refused in the first case and sent in the second |
| `ConfigParser.ConfigFile.ReadConfig` | uwb/halimpl/utils/phNxpConfig.cc:202-378 | the character loop leaves the settings of the specified parse, none for a missing file, and is valid exactly when it found any |
| `ConfigParser.ParseConcat` | uwb/halimpl/utils/phNxpConfig.cc:233-372 | parsing a text behind one that ends at a line start is the first-wins merge of both parses |
| `ConfigParser.CommentsDoNotMatter` | uwb/halimpl/utils/phNxpConfig.cc:364-370 | comment and blank lines never change the result |
| `ConfigParser.PrintParse` | uwb/halimpl/utils/phNxpConfig.cc:233-372 | reading printed settings gives back their map |
| `ConfigParser.EveryMapRoundTrips` | uwb/halimpl/utils/phNxpConfig.cc:233-372 | every map of expressible settings can be written to a file that reads back as it |
| `ConfigParser.ReadableIffExpressible` | uwb/halimpl/utils/phNxpConfig.cc:136-190 | a map is what some file reads as if and only if its tokens are printable, its numbers below 2^64, its strings without quote and hash, and its string arrays not empty |
| `ConfigLines.HexadecimalLine` | uwb/halimpl/utils/phNxpConfig.cc:283-304 | for every spelling of hexadecimal digits in upper and lower case behind 0x or 0X: the line sets the number they stand for, modulo 2^64, at the end of the file or in front of any other character |
| `ConfigLines.HexadecimalNumber` | uwb/halimpl/utils/phNxpConfig.cc:283-304 | so every number below 2^64, written in hexadecimal in either case of every letter, reads as that number |
| `ConfigLines.DecimalLine` | uwb/halimpl/utils/phNxpConfig.cc:266-304 | the same for decimal digits, leading zeros included |
| `ConfigLines.BoardVariant` | uwb/halimpl/utils/phNxpConfig.cc:283-304 | the line UWB_BOARD_VARIANT_CONFIG=0x2A reads as 42 |
| `ConfigLines.ByteArrayLine` | uwb/halimpl/utils/phNxpConfig.cc:305-349 | arrays of bytes, over several lines or not: numbers of any length in either case, each ended by white space, comma, colon or minus, or the last one by the brace, give their low bytes |
| `ConfigLines.BrokenArrayLine` | uwb/halimpl/utils/phNxpConfig.cc:335-349 | a number in an array that any other character ends drops the setting |
| `ConfigLines.LineInFile` | uwb/halimpl/utils/phNxpConfig.cc:233-372 | wherever a line that sets a token stands in a file, the setting is there unless a line in front has it |
| `ConfigLines.TokenCharIff` | uwb/halimpl/utils/phNxpConfig.cc:136-142 | the characters of tokens, listed |
| `ConfigLines.DelimitsIff` | uwb/halimpl/utils/phNxpConfig.cc:164-167 | the characters that end a number in an array, listed |
| `Cascade.CascadeConfig.constructor` | uwb/halimpl/utils/phNxpConfig.cc:701-791 | the files that do not depend on a country are read, the others stay empty |
| `Cascade.CascadeConfig.SetCountryCode` | uwb/halimpl/utils/phNxpConfig.cc:803-822 | the country-specific files become those of the translated region, and nothing happens within the same one |
| `Cascade.CascadeConfig.FindParam` | uwb/halimpl/utils/phNxpConfig.cc:824-844 | the lookup is that in the layers of the current region |
| `Cascade.LayersFollowRegion` | uwb/halimpl/utils/phNxpConfig.cc:453-466 | whatever the history of codes, the layers held are those of the last region |
| `Cascade.LayerIsFile` | uwb/halimpl/utils/phNxpConfig.cc:453-466 | each extra layer holds its file: a country-specific one is named by the first part of the path, the region and the last part, in that order, and is empty before the first region |
| `Cascade.FindIsHistoryIndependent` | uwb/halimpl/utils/phNxpConfig.cc:803-844 | histories that end in the same region find the same under every name |
| `Cascade.FindIsMergedLookup` | uwb/halimpl/utils/phNxpConfig.cc:824-844 | the cascade is a lookup in one map merged with precedence capabilities, extra files from last to first, main, UCI |
| `Cascade.XlateIgnoresOrder` | uwb/halimpl/utils/phNxpConfig.cc:612-627 | with no code in two regions of different names, translation does not depend on the iteration order |
| `Cascade.XlateDependsOnOrderIff` | uwb/halimpl/utils/phNxpConfig.cc:612-627 | some iteration order of the same regions translates a code differently if and only if two differently named regions list it |
| `LinkedList.List.Append` | uwb/halimpl/tml/phDal4Uwb_messageQueueLib.cc:171-182 | walking the nodes and linking a new one appends to the contents |
| `LinkedList.List.TakeFirst` | uwb/halimpl/utils/phNxpUciHal_utils.cc:191-223 | unlinking the front takes the oldest item, and nothing only when the list is empty |
| `LinkedList.List.Remove` | uwb/halimpl/utils/phNxpUciHal_utils.cc:128-182 | unlinking by data removes the first occurrence only, and reports whether there was one |
| `MessageQueue.AlwaysBalanced` | uwb/halimpl/tml/phDal4Uwb_messageQueueLib.cc:156-231 | in every interleaving of any number of threads, tokens and threads inside balance the list, up to interrupted waits |
| `MessageQueue.DeliveredInOrder` | uwb/halimpl/tml/phDal4Uwb_messageQueueLib.cc:156-231 | what was delivered is always a prefix of what was appended, and the list is the rest |
| `MessageQueue.WokenReceiverFindsMessage` | uwb/halimpl/tml/phDal4Uwb_messageQueueLib.cc:214-228 | without interrupted waits semaphore plus woken receivers is list length minus senders that have not posted, and a woken receiver finds a message |
| `MessageQueue.NoLostWakeup` | uwb/halimpl/tml/phDal4Uwb_messageQueueLib.cc:184-184 | with nobody inside the queue the semaphore is the list's length |
| `MessageQueue.MissesNeedInterrupts` | uwb/halimpl/tml/phDal4Uwb_messageQueueLib.cc:214-216 | receives come back empty at most once an interrupted wait, and one is enough |
| `MessageQueue.RunCritical` | uwb/halimpl/tml/phDal4Uwb_messageQueueLib.cc:169-228 | the list operations do to the linked list what the step does to the list of the state |
| `Tml.AlwaysInvariant` | uwb/halimpl/tml/phTmlUwb.cc:204-428 | every reachable state of the threads, failed semaphore waits included, satisfies the token, buffer and order invariants |
| `Tml.ResponseFollowsCompletion` | uwb/halimpl/tml/phTmlUwb.cc:301-416 | in every interleaving a response's message enters the queue after the completion message of the write it answers, unless the reader gave up; notifications are exempt |
| `Tml.ResponseBytesFollowCompletion` | uwb/halimpl/tml/phTmlUwb.cc:301-416 | the same by the first byte: it holds of every packet that answers a write, message types 3 and 7 (0x60 to 0x7F, 0xE0 to 0xFF) excepted |
| `Tml.ReaderWaitsIff` | uwb/halimpl/tml/phTmlUwb.cc:303-306 | the reader waits if and only if the flag is down and the first byte is none of these; otherwise it goes on to post |
| `Tml.FlagTellsLastWrite` | uwb/halimpl/tml/phTmlUwb.cc:366-415 | in every interleaving, between writes the flag is up if and only if the last completed write succeeded, and during one it is down |
| `Tml.GivingUpBreaksOrder` | uwb/halimpl/tml/phTmlUwb.cc:796-813 | a schedule in which the reader gives up and the response is first |
| `Tml.ReadTokenConserved` | uwb/halimpl/tml/phTmlUwb.cc:219-318 | exactly one of to be armed, requested, held by the reader and queued holds of the read; a requested one has a token, an armer or a reader, and only failed waits leave tokens over |
| `Tml.PacketsArriveInOrder` | uwb/halimpl/tml/phTmlUwb.cc:276-300 | the shared buffer is written only when no packet is queued or being consumed, and the client sees what the device delivered, in order |
| `Tml.SingleWriteInFlight` | uwb/halimpl/tml/phTmlUwb.cc:560-605 | at most one write is between its call and its callback, and the busy flag says so, failed waits included |
| `Tml.NoLostSignal` | uwb/halimpl/tml/phTmlUwb.cc:826-837 | the reader sleeps unsignalled only while the flag is down, and then the writer's signal reaches it |
| `Lrc.CalcLrc` | uwb/halimpl/fwd/sr1xx/phNxpUciHal_fwd.cc:689-708 | the loop computes the specified checksum byte |
| `Lrc.IntactIffLrc` | uwb/halimpl/fwd/sr1xx/phNxpUciHal_fwd.cc:689-708 | bytes and a following byte sum to zero modulo 256 if and only if that byte is the checksum |
| `Lrc.SingleByteChangeDetected` | uwb/halimpl/fwd/sr1xx/phNxpUciHal_fwd.cc:319-323 | changing any single byte, data or checksum, makes the check fail |
| `Hbci.ReassembleTransfer` | uwb/halimpl/fwd/sr1xx/phNxpUciHal_fwd.cc:386-464 | a receiver that checks sizes and checksums and stops at the first unflagged header gets back exactly the image, for every image |
| `Hbci.BlocksIsCeiling` | uwb/halimpl/fwd/sr1xx/phNxpUciHal_fwd.cc:396-411 | the number of blocks is max(1, ceil(n / 2048)) |
| `Hbci.FullBlocks` | uwb/halimpl/fwd/sr1xx/phNxpUciHal_fwd.cc:399-403 | every block but the last carries 2048 bytes under a flagged header |
| `Hbci.PutCommandTrace` | uwb/halimpl/fwd/sr1xx/phNxpUciHal_fwd.cc:386-464 | against every device: on success the host has seen exactly the transfer, with an acknowledgement in its header after each APDU; however it ends, what was sent is sent in order |
| `Hbci.NextNeedsAcknowledgement` | uwb/halimpl/fwd/sr1xx/phNxpUciHal_fwd.cc:415-458 | against every device, and however the transfer ends: the host sends an APDU only when it has just found a positive acknowledgement of the one before in its header |
| `Hbci.PutCommandSucceedsIff` | uwb/halimpl/fwd/sr1xx/phNxpUciHal_fwd.cc:386-464 | exactly when a transfer succeeds: when after each of its APDUs the header, with the bytes just delivered over those of before, is a positive acknowledgement |
| `Hbci.AcknowledgedByDeviceIff` | uwb/halimpl/fwd/sr1xx/phNxpUciHal_fwd.cc:712-729 | after a successful transfer every APDU was acknowledged by delivered bytes if and only if every header read delivered at least class and instruction |
| `Hbci.SilentDeviceIsBelieved` | uwb/halimpl/fwd/sr1xx/phNxpUciHal_fwd.cc:712-729 | a device that delivers no byte at all is taken to acknowledge every image, if an acknowledgement is left in the header |
| `Hbci.OneAcknowledgementIsEnough` | uwb/halimpl/fwd/sr1xx/phNxpUciHal_fwd.cc:712-729 | whatever is in the header, one delivered acknowledgement of the first APDU is enough for every image |
| `Hbci.MasterSuccess` | uwb/halimpl/fwd/sr1xx/phNxpUciHal_fwd.cc:546-684 | against every device, success in HIF mode means that the host has seen HBCI ready, the mode acknowledged, rounds of HIF ready and a complete image with its acknowledgements, then Image_Success, in that order and nothing else |
| `Hbci.SeenIsSaidIff` | uwb/halimpl/fwd/sr1xx/phNxpUciHal_fwd.cc:642-729 | over a whole run in any mode, what the host saw is what the device delivered if and only if every header read delivered at least class and instruction |
| `Hbci.ImageSentIffGeneralAnswer` | uwb/halimpl/fwd/sr1xx/phNxpUciHal_fwd.cc:553-640 | a successful run has transferred the image if and only if the host saw a general answer to the first status query of the loop |
| `Hbci.ImageSent` | uwb/halimpl/fwd/sr1xx/phNxpUciHal_fwd.cc:553-640 | in that case the complete image can be reassembled from what was sent right behind HIF ready, and an image status query, with Image_Success seen as its answer, is last |
| `Hbci.SuccessWithoutImage` | uwb/halimpl/fwd/sr1xx/phNxpUciHal_fwd.cc:592-599 | a device whose six exchanges yield success without the image |
| `HbciDownload.MasterSucceedsIff` | uwb/halimpl/fwd/sr1xx/phNxpUciHal_fwd.cc:642-684 | exactly when a download succeeds, against every device: when the host finds 02 21, then 04 01 after the mode command, and the status loop of mode 23 or 24 succeeds |
| `HbciDownload.LoopIff` | uwb/halimpl/fwd/sr1xx/phNxpUciHal_fwd.cc:466-640 | exactly when that does: when the host finds 22 01 or 52 01, or else 02 with the mode, then 04 01 after each of the image's APDUs, and so on |
| `HbciDownload.ApdusIs` | uwb/halimpl/fwd/sr1xx/phNxpUciHal_fwd.cc:396-411 | an image needs one acknowledgement if it is empty, and else two for each 2048 bytes or part of them |
| `HbciDownload.OrdinaryDownload` | uwb/halimpl/fwd/sr1xx/phNxpUciHal_fwd.cc:466-684 | in both modes: a device that answers 02 21, 04 01, the mode ready, an acknowledgement for each APDU, and success, makes every image's download succeed, with exactly the ordinary run in bytes |
| `HbciDownload.SuccessfulRun` | uwb/halimpl/fwd/sr1xx/phNxpUciHal_fwd.cc:466-684 | in both modes, every success is such a run with some number of rounds, and nothing else |
| `HbciDownload.BlockInBytes` | uwb/halimpl/fwd/sr1xx/phNxpUciHal_fwd.cc:396-434 | a block in bytes: class, instruction, little-endian length or 0x8000, at most 2048 bytes of data, and a checksum that makes all add up to zero |
| `HbciDownload.QueryInBytes` | uwb/halimpl/fwd/sr1xx/phNxpUciHal_fwd.cc:234-331 | what the host sends in a query, and its verdict in bytes: 82 for a wrong class, 83 for a wrong instruction, 84 for a wrong size, else 01 |
| `HbciDownload.QueryWithoutData` | uwb/halimpl/fwd/sr1xx/phNxpUciHal_fwd.cc:234-331 | an answer without data is not acknowledged and ends the query without success |
| `Hbci.QueryInfoSucceedsIff` | uwb/halimpl/fwd/sr1xx/phNxpUciHal_fwd.cc:234-331 | a query succeeds if and only if class, instruction, size and checksum are right, and yields exactly the data |
| `Hbci.QueryInfoIsChecked` | uwb/halimpl/fwd/sr1xx/phNxpUciHal_fwd.cc:234-331 | in every run, short reads included, success means a matching header and data that adds up |
| `HbciHost.Host.PutCommand` | uwb/halimpl/fwd/sr1xx/phNxpUciHal_fwd.cc:386-464 | the do-while loop over the image with its reused structure performs the specified transfer |
| `HbciHost.Host.QueryInfo` | uwb/halimpl/fwd/sr1xx/phNxpUciHal_fwd.cc:234-331 | on success exactly the data is appended to the info buffer and what it held stays; otherwise the buffer is unchanged |
| `HbciHost.Host.GeneralStatus` | uwb/halimpl/fwd/sr1xx/phNxpUciHal_fwd.cc:152-232 | the one general answer accepted in each mode: class 02 with 21 before a mode is set, 23 in patch ROM mode, 24 in HIF mode |
| `HbciHost.Host.MasterImage` | uwb/halimpl/fwd/sr1xx/phNxpUciHal_fwd.cc:466-640 | the status loop of both modes performs the specified download |
| `HbciHost.Host.Master` | uwb/halimpl/fwd/sr1xx/phNxpUciHal_fwd.cc:642-684 | the whole download, undefined modes included |
| `RetryLoop.ProcessExtCmdRsp` | uwb/halimpl/hal/phNxpUciHal_ext.cc:68-173 | chained commands and data are attempted exactly once; every other command until an attempt does not call for another, with one notification exactly when a counter is at its limit, and which status is reported |
| `RetryLoop.EndIsUnique` | uwb/halimpl/hal/phNxpUciHal_ext.cc:87-150 | that determines the number of attempts |
| `RetryLoop.AtMostSevenAttempts` | uwb/halimpl/hal/phNxpUciHal_ext.cc:130-149 | for every sequence of outcomes there are at most seven attempts |
| `RetryLoop.AttemptsForOneAnswer` | uwb/halimpl/hal/phNxpUciHal_ext.cc:130-149 | a chip that never answers, or always asks for a retransmission, is tried five times, one that always finds the length invalid three times, both with the notification; any other answer ends the loop at once |
| `RetryLoop.SevenAttempts` | uwb/halimpl/hal/phNxpUciHal_ext.cc:130-149 | seven are reached, whatever the last one is, with and without the notification |
| `RetryLoop.NotificationAtLimit` | uwb/halimpl/hal/phNxpUciHal_ext.cc:144-148 | the notification goes out exactly when the last attempt brings a counter to its limit, never earlier |
| `RetryLoop.FalseSuccessIff` | uwb/halimpl/hal/phNxpUciHal_ext.cc:87-172 | over all sequences of outcomes: a run of n attempts none of which was answered with success reports success if and only if n is at most seven and the last attempt is a failing wait, or, from the second on, a failing write or a consumed command; each of these is reached |
| `RetryLoop.TrueSuccessIff` | uwb/halimpl/hal/phNxpUciHal_ext.cc:152-172 | a run that was answered with success reports it exactly when the timer stops |
| `TxPower.UpdateTxPower` | uwb/halimpl/hal/phNxpUciHal_ext.cc:483-510 | the loop with its uint8_t index performs the specified in-place update |
| `TxPower.UpdateIsExact` | uwb/halimpl/hal/phNxpUciHal_ext.cc:494-508 | every antenna's RMS value becomes the clamped, truncated sum and no other byte changes, for up to 50 antennas |
| `TxPower.OffsetsAddUpIff` | uwb/halimpl/hal/phNxpUciHal_ext.cc:499-507 | applying two offsets in turn is applying their sum if and only if, on every antenna's value, the first neither clamps nor wraps or the second cannot tell |
| `TxPower.FiftyFirstAntennaWraps` | uwb/halimpl/hal/phNxpUciHal_ext.cc:494-507 | in the update of a calibration with more than 50 antennas, the 51st antenna's sum goes into the parameter id and the length byte, the latter to stay, the former up to 101 antennas or else, with a negative offset, only to fall; the powers from the 51st antenna on stay |
| `TxPower.ExactIffFiftyAntennas` | uwb/halimpl/hal/phNxpUciHal_ext.cc:494-508 | an update by a nonzero offset is exact if and only if there are at most 50 antennas, whatever the values |
| `TxPower.ExactForCountIff` | uwb/halimpl/hal/phNxpUciHal_ext.cc:494-508 | it is exact on all calibrations with a given number of antennas if and only if there are at most 50 |

## Left out

- CapsInfo.ParseGetCapsInfo: does not cover an AoA TLV without any other one-byte tag in front, where the code
  writes through an uninitialised pointer. With configured vendor capabilities nothing is said about the
  rebuilt packet when a CCC version TLV is not two bytes long, or when it does not fit its length byte.
- CapsMask.RewriteIsParseMaskPrint: for distinct tags, starting from an empty map; `RewriteMasksChannelsOnly`
  speaks of the others.
- Regulation.RestrictedGoesUpIff: when the response parses, for parsed channel masks of at most one byte; what
  becomes of longer ones is stated by `LongMaskIsCut`, not what a reader then makes of the packet.
- Regulation.DeviceResponseGoesUpIff: for non-empty values in front of AoA TLVs; where one is empty the code
  overwrites the next tag, which `ForwardCaps` covers in bytes.
- Regulation.Hal.WriteUnlocked: for commands on which the filter's and the gate's loops end (`EndsIff`,
  `CheckNeverEnds` and `OversizedParamStalls` speak of the others), for calibration commands that hold the
  antennas they claim, and not for response packets written from above. The copy of the calibration that is
  kept for sending it again is not modelled.
- Regulation.AskingIsRefusedIff: in the range of `ConfigurationGate`, with a filtered payload of at most 251
  bytes, for commands that ask for one of the two channels.
- Regulation.ConfigurationGate: for one-byte tags and filtered payloads below 256 bytes; of longer ones only
  `UncheckedLengths` speaks, because the code then scans a prefix that may cut a parameter in two.
- Regulation.ForwardCaps: for responses outside internal commands, in the range of the first rewriting, and
  when the printed map fits the response buffer, which from an empty map it does (`ParseGrows`).
- CountryCaps.ApplyCountryCaps: the TX power command the code sends while applying a blob is recorded, not
  performed, because it re-enters the command path.
- CountryCode.Country.HandleSetCountryCode: the TX power, pulse shape and base band calibrations sent after
  the restrictions are not modelled; the capability map is taken not to exist when the HAL opens, although
  the code does not reset it when it reopens.
- Cascade.CascadeConfig.constructor: the files do not change between reads; an extra file without settings is
  kept as an empty layer where the code drops it, which lookups cannot tell; choosing the capability file by
  version, and splitting the region map's strings into country codes, are not modelled.
- Cascade.FindIsHistoryIndependent: string, string array and string-as-number lookups are not modelled.
- TxPower.UpdateTxPower: the stored calibration must hold the antennas it claims; the code does not check.
- Hbci.PutCommandTrace: a write that the driver accepts is taken to send all its bytes, as the code takes it.
- Tml.ResponseFollowsCompletion: read and write aborts, SPI reset and shutdown are not steps; the first read
  is armed before the client takes messages.
- MessageQueue.WokenReceiverFindsMessage: release and destruction of the queue are not steps, and the
  backward links, which receiving does not maintain, are not modelled.
- RetryLoop.ProcessExtCmdRsp: each attempt has one outcome; a late timer racing a late response is not modelled.
- The device node, sleeps, logging, property access and file handling, which are parameters or omitted.
- Device status, binding, thermal and retransmission notifications in `read_complete`, core initialisation,
  version reporting, OTP reads, the timer pool: straight-line code or slot bookkeeping.
- AIDL and Binder glue, the lights, fingerprint and settings components, build files and data.
