# Verified model of the device firmware's protocol and driver cores

This Dafny project models eight cores of the device firmware and proves what they keep, step by step and over whole runs.
`dafny verify dfyconfig.toml` checks everything.

| files | core |
|---|---|
| `Buffers`, `CoapWire`, `CoapOptions`, `CoapPdu`, `CoapSession`, `CoapUri` | the CoAP message container (RFC 7252, section 3), which edits one byte buffer in place |
| `Hex`, `JsonText`, `JsonParser`, `JsonRoundTrip`, `JsonInput` | the JSON printer and the recursive-descent parser with one character of pushback |
| `UsbRam` | the first-fit allocator of the USB RAM |
| `OhciLists` | the interrupt lists and the done list of the OHCI driver (OpenHCI 1.0a, section 4.4) |
| `TickerModel`, `TickerEnding`, `TickerQueue`, `TickerRuns` | the timer event queue under wrapping 32-bit time |
| `Flash25`, `BlockTransfer`, `FirmwareUpdate` | the serial flash driver, and the block-wise firmware download over it (RFC 7959, section 2.2) |
| `SpiQueue` | queued SPI transfers over a ring buffer |
| `HttpMap` | the form encoder with its predicted length |

Code that changes things in place is a class with the same fields and loops; each method is proved against a specification
function, and the properties are proved about those functions. `hide` statements only keep proofs small.

## What the proofs brought to light

The model follows the code, also where the code does not do what its documentation or a standard says.

* **CoAP options.** `addOption` trusts its record of the largest number added. An addition that fails for lack of space
  raises the record all the same, and then the next option gets another number (`FailedAdditionSpoilsNext`: 11 becomes
  65487). Adding is stable insertion if and only if the record is right or does not matter (`AddOutcomeIsInsertIff`).
  An insertion in the middle does not raise the option count, so the count that `getOptions` uses falls behind until the
  message is validated (`InsertedIsNotCounted`). Once there is a payload, an option that goes behind all others is
  written behind the payload and becomes part of it (`OptionAfterPayload`, `AddedAsMeantIff`).
* **CoAP payload.** Resizing a payload in a buffer of the container's own reallocates the buffer, but the payload pointer
  that `mallocPayload` returns, and that `setPayload` copies to, is the old one. It points into the message if and only
  if the payload is the first one, the buffer is an outside one, or the length does not change (`MallocPayload`,
  `ResizedPayloadIsLost`). A reallocation is taken to move the buffer.
* **CoAP validation.** The check of extension bytes passes the nibble, 13 or 14, to `computeExtraBytes`, which answers 1
  for both. A two-byte field at the end of a message is accepted although its second byte is missing
  (`TruncatedFieldIsAccepted`), and the walk reads up to two bytes behind the message, which can lie behind the buffer
  (`WalkReadsBehind`). Fields above 65535 are cut (`OversizedFieldIsAccepted`). Apart from such oversized fields, what
  is accepted is exactly what the reference reader decodes.
* **Byte order.** Extension bytes and the message ID are swapped with `htons` and then taken apart by value. On a
  little-endian host the wire order of RFC 7252 results only when no two-byte extension has different bytes
  (`WireOrderIff`), and for message IDs of two equal bytes (`MessageIDOrderIff`). Messages between two such hosts are
  still understood, which is what the end-to-end theorem says.
* **CoAP token.** A token of more than 8 bytes is stored while the header keeps the old length, and the result 0 reports
  success (`NineByteToken`). The length is kept in eight bits while bytes move, so tokens can only be resized in messages
  up to 255 bytes (`LowestSourceIff`); when a longer message has no room for its token, it is cut to its length modulo
  256 (`SetToken`).
* **CoAP reset.** The documentation says that the container is as if newly constructed, but its version is 0 and not 1.
* **CoAP paths.** `setURI` returns 0 for success although its documentation says 1, and 0 for a single character even
  when that did not fit. It takes a length, but also looks for zero bytes: a path with a zero byte in it can lose its
  segments, and a slice of a longer string can gain some, be copied with a negative length, or never end (`NotServed`);
  `ScanIsSegmentsIff` has the exact condition. The path `/` is stored as an option, where section 6.4 of RFC 7252 has
  none, and a slash at the end is lost. `getURI` needs two bytes more than the text, and sees only as many options as
  are counted; when an option stands for the root it reports the length 1, but the zero is behind everything gathered
  before (`EndsAt`).
* **Block2.** The option is sent with 16 bits, which is right exactly for block numbers below 4096
  (`BlockRequestIff`). The more-bit of a three-byte value is not seen (`LongBlock2IsMissed`, `SaysMoreIff`).
* **JSON.** `[]` and `{}` are read as null, `\u` is printed but cannot be read: a value survives printing and parsing if
  and only if it contains neither (`RoundTripIff`). Integers of ten characters overrun their buffer (`IntTextFitsIff`).
  A number with a capital exponent alone becomes an integer, rounded towards zero (`CapitalExponent`).
* **USB RAM.** The allocator returns a pointer without reserving anything if and only if there are free runs, none of
  them aligned: it is the last of them (`Malloc`). The host controller's communication area can get such a pointer
  (`HccaIsNotReserved`). A block of all 256 chunks leaves its first chunk marked free (`WholeRamStaysFree`), and a
  request for no bytes gets an aligned chunk whether it is in use or not (`EmptyRequestFitsAnywhere`). Freeing a pointer
  into a block leaves a broken map (`ClearingIsSafeIff`).
* **OHCI.** The done queue of an endpoint has room for three descriptors; those that find no room are lost
  (`NothingLostIff`, `FourthIsLost`).
* **Timers.** A ticker without a delay that comes up keeps the interrupt handler going for ever (`ZeroDelayNeverEnds`).
  The handler ends if and only if there is a clock read, the `m`-th of the run, up to which the other events come up at
  most `m` times and such a ticker not at all (`EndsIff`).
* **SPI.** The callback of a transfer that is over runs before the next waiting transfer is started, and finds the
  peripheral free. What it submits is started at once, and then the waiting transfer is started as well, while the other
  one runs: the callback does no harm if and only if it submits nothing, or one transfer while nothing waits
  (`IrqHandler`, `CallbackOverruns`).
* **Download.** An attempt whose first exchange times out ends at once with result 0 and nothing stored; that is the only
  way to get there (`SuccessIff`). The recorded file length keeps the bytes of failed attempts (`FailedAttemptCounts`),
  over all rounds of six (`DownloadInRounds`);
  it is right if and only if every failed attempt ended before its first block (`RecordedLengthIff`). The range check of
  the flash lets ranges through that wrap (`AcceptsIff`).
* **Form encoder.** A pair that does not fit its buffer is cut silently, while the announced length counts it in full:
  with the client's buffer of 256 bytes a value of 253 letters (`LongValueIsCut`).
  The two agree if and only if every pair fits (`SentInFullIff`).

## Model

| member | source | states |
|---|---|---|
| CoapWire.HtonsInvolution | cantcoap/cantcoap.cpp:793-812 | converting to network order and back gives the number, for either byte order of the host |
| CoapWire.FieldRoundTrip | cantcoap/cantcoap.cpp:1263-1378 | the 13/14 extension of a delta or length is read back as the number, with as many extension bytes as announced |
| CoapWire.EncodeConcat | cantcoap/cantcoap.cpp:1419-1470 | a delta-encoded list splits anywhere, the second part being relative to the last number of the first |
| CoapWire.DecodeEncode | cantcoap/cantcoap.cpp:850-889 | the reference reader gets back exactly the options and the payload that were encoded |
| CoapWire.EncodeDecode | cantcoap/cantcoap.cpp:850-889 | every byte sequence that decodes is the one encoding of what it decodes to |
| CoapWire.ScanIsDecode | cantcoap/cantcoap.cpp:279-381 | for all bytes on which the walk stays inside the buffer: the option area decodes exactly when the validator's walk accepts it without meeting a field above 65535, and then count and payload agree |
| CoapWire.SlackSuffices | cantcoap/cantcoap.cpp:334-361 | two bytes behind the message are enough for the walk to stay inside the buffer |
| CoapWire.DecodableStaysInside | cantcoap/cantcoap.cpp:279-381 | on a well-formed option area the walk stays inside any buffer that holds it |
| CoapWire.OversizedFieldIsAccepted | cantcoap/cantcoap.cpp:330-381 | a concrete option area that is accepted with a field that does not fit 16 bits |
| CoapWire.TruncatedFieldIsAccepted | cantcoap/cantcoap.cpp:338-352 | a concrete option area that is accepted with an extension byte missing |
| CoapWire.WalkReadsBehind | cantcoap/cantcoap.cpp:334-361 | two bytes at the end of a buffer on which the walk reads behind it |
| CoapOptions.InsertAllIsStableSort | cantcoap/cantcoap.cpp:1330-1365 | inserting options one by one sorts them by number, loses none and keeps equal numbers in the order of addition |
| CoapOptions.AddOutcomeIsInsertIff | cantcoap/cantcoap.cpp:902-1033 | a successful addition is stable insertion exactly when the record of the largest number is right, or the number lies below it in a non-empty list |
| CoapOptions.HintAfterAdding | cantcoap/cantcoap.cpp:923-954 | a right record stays right over an addition |
| CoapOptions.SplitDelta | cantcoap/cantcoap.cpp:955-985 | splitting a delta needs at most one extension byte more than the whole, so the hole for a new option is never negative |
| CoapOptions.EncodeInserted | cantcoap/cantcoap.cpp:902-1033 | the encoding after a middle insertion is the old one with the new option put in and the next option's delta shortened |
| CoapOptions.WireOrderIff | cantcoap/cantcoap.cpp:1386-1470 | an option is written in network byte order exactly on a big-endian host or when its extension bytes are equal |
| CoapPdu.CoapPDU.GetOptionDelta | cantcoap/cantcoap.cpp:1300-1320 | the delta read from the buffer is the scanned one |
| CoapPdu.CoapPDU.GetOptionValueLength | cantcoap/cantcoap.cpp:1263-1293 | the length read from the buffer is the scanned one |
| CoapPdu.CoapPDU.SetOptionDelta | cantcoap/cantcoap.cpp:1386-1408 | puts the delta nibble and its extension bytes in place, keeps the length nibble and every other byte |
| CoapPdu.CoapPDU.InsertOption | cantcoap/cantcoap.cpp:1419-1470 | puts exactly the encoding of the option at its position |
| CoapPdu.CoapPDU.ShiftPDUUp | cantcoap/cantcoap.cpp:1229-1238 | the shifted bytes are those from before, though source and target overlap, and all others are untouched |
| CoapPdu.CoapPDU.ShiftPDUDown | cantcoap/cantcoap.cpp:1248-1256 | the same downwards |
| CoapPdu.CoapPDU.FindInsertionPosition | cantcoap/cantcoap.cpp:1330-1365 | finds the stable insertion position in the bytes and the number before it, or the end and the record, also in front of a payload |
| CoapPdu.CoapPDU.DisplaceAndInsert | cantcoap/cantcoap.cpp:994-1028 | the in-place steps (shift, move of a header byte, shorter delta, new option) yield the message with the displaced option |
| CoapPdu.CoapPDU.InsertBefore | cantcoap/cantcoap.cpp:955-1033 | the middle half of an addition: new bytes and length, or everything as before when the buffer is full |
| CoapPdu.CoapPDU.AppendOption | cantcoap/cantcoap.cpp:923-954 | the append half: the old bytes and then the new option, or everything as before |
| CoapPdu.CoapPDU.AddOption | cantcoap/cantcoap.cpp:902-1033 | the buffer again encodes token, options and payload. The option is added where it belongs, or (exactly when an outside buffer is too small) nothing changes; it is inserted as meant exactly when the record serves and, if there is a payload, the option goes in front of another one; otherwise it is appended under another number or joins the payload. Length, record, count and payload pointer are stated; for all values whose option length fits 16 bits |
| CoapPdu.AddedAsMeantIff | cantcoap/cantcoap.cpp:902-1033 | an addition is stable insertion and leaves the payload alone exactly when the record serves and there is no payload or the option goes in front of another one |
| CoapPdu.EncodesInserted | cantcoap/cantcoap.cpp:955-1028 | displacing one option in the bytes of any message gives the encoding of the list with the new option, and of the same token and payload |
| CoapPdu.LowestSourceIff | cantcoap/cantcoap.cpp:713-747 | the shift of a growing token starts at the first byte behind the old one exactly for messages of at most 255 bytes, and in front of the buffer otherwise |
| CoapPdu.CoapPDU.GrowToken | cantcoap/cantcoap.cpp:719-752 | a longer token is in place and everything behind the old one follows it |
| CoapPdu.CoapPDU.ShrinkToken | cantcoap/cantcoap.cpp:754-775 | a shorter token is in place and everything behind the old one follows it |
| CoapPdu.CoapPDU.SetToken | cantcoap/cantcoap.cpp:693-776 | only the token changes, and the buffer stays a valid encoding exactly up to 8 bytes of token; without room nothing changes but that the length is cut to eight bits |
| CoapPdu.CoapPDU.MallocPayload | cantcoap/cantcoap.cpp:1045-1111 | reserves room behind one marker, in a first payload or a resized one, keeps all bytes in front and as much of the payload as fits; the pointer returned lies in the buffer exactly for a first payload, an outside buffer or an unchanged length |
| CoapPdu.CoapPDU.SetPayload | cantcoap/cantcoap.cpp:1125-1141 | with a pointer into the buffer the message has exactly this payload, or the old one when it is empty or does not fit; with a pointer into a released buffer, exactly when a payload in an own buffer is resized, it has what the resizing left of the old one |
| CoapSession.ResizedPayloadIsLost | cantcoap/cantcoap.cpp:1077-1110 | a run of two calls after which the message does not have the second payload, though the result says success |
| CoapPdu.WellFormedIff | cantcoap/cantcoap.cpp:228-382 | a message is well formed exactly when it has a known code and encodes some token, options and payload |
| CoapPdu.DecodedIsEncoded | cantcoap/cantcoap.cpp:228-382 | a well-formed message encodes what is decoded from it |
| CoapPdu.EncodedIsDecoded | cantcoap/cantcoap.cpp:228-382 | what a message encodes is what is decoded from it |
| CoapPdu.CoapPDU.ScanOptions | cantcoap/cantcoap.cpp:279-381 | the validator's loop ends on every input with the verdict, count and payload of the specification walk |
| CoapPdu.CoapPDU.Validate | cantcoap/cantcoap.cpp:228-382 | returns 1 on every well-formed message, in any buffer that holds it, and finds its token, option count and payload; what else it accepts are exactly messages with an oversized field |
| CoapPdu.CoapPDU.GetOptions | cantcoap/cantcoap.cpp:850-889 | the i-th view shows number, delta, position and value bytes of the i-th option |
| CoapPdu.CoapPDU.GetOptionsBlock2Next | cantcoap/cantcoap.cpp:825-845 | returns 1 exactly when one of the options counted is a Block2 option whose more-bit the code sees |
| CoapPdu.MoreBitIff | cantcoap/cantcoap.cpp:832-842 | the code sees the more-bit of RFC 7959 exactly in values of at most two bytes, or when it is clear |
| CoapPdu.SaysMoreIff | cantcoap/cantcoap.cpp:825-845 | over a list of options the code is right about more blocks exactly when it says so, or no longer Block2 value has the bit set |
| CoapSession.LongBlock2IsMissed | cantcoap/cantcoap.cpp:832-842 | a message with a three-byte Block2 value on which it is wrong |
| CoapPdu.CoapPDU.SetMessageID | cantcoap/cantcoap.cpp:793-812 | writes these two bytes and no others, and reading the message ID gives the one that was set |
| CoapPdu.MessageIDOrderIff | cantcoap/cantcoap.cpp:793-802 | the two bytes are in network order exactly on a big-endian host or when they are equal |
| CoapPdu.CoapPDU.constructor | cantcoap/cantcoap.cpp:67-84 | a new message: version 1, no token, options or payload |
| CoapPdu.CoapPDU.FromBuffer | cantcoap/cantcoap.cpp:110-180 | a container over an outside buffer, empty or with bytes still to be validated |
| CoapPdu.CoapPDU.Reset | cantcoap/cantcoap.cpp:203-216 | an empty message in the same buffer, all of it zero, version 0 included |
| CoapSession.Build | cantcoap/cantcoap.cpp:693-1033 | after any interleaving of token and option calls the message has the last token and the stable sort of the options |
| CoapSession.EncodesOnce | cantcoap/cantcoap.cpp:850-889 | a byte sequence encodes one token, option list and payload only |
| CoapSession.BuildSendReceive | USER/remoteupdate.cpp:408-475 | whatever was built by any edits and sent, the receiver's validator accepts, and its readers give back token, options, payload, code and message ID |
| CoapSession.FailedAdditionSpoilsNext | cantcoap/cantcoap.cpp:923-954 | a run in which a failed addition makes the next option carry the number 65487 instead of 11 |
| CoapSession.OptionAfterPayload | cantcoap/cantcoap.cpp:923-954 | a run in which an option becomes part of the payload |
| CoapSession.InsertedIsNotCounted | cantcoap/cantcoap.cpp:955-1033 | a run after which two options are there and one is counted |
| CoapSession.NineByteToken | cantcoap/cantcoap.cpp:693-752 | a run after which nine bytes of token are there and the header says none |
| CoapUri.NormalIff | cantcoap/cantcoap.cpp:439-515 | a path is its own normal form exactly when it starts with a slash and does not end with one, or is the slash alone |
| CoapUri.ScanIsSegmentsIff | cantcoap/cantcoap.cpp:461-509 | the scan with its tests for zero bytes stores exactly the segments of the path if and only if the path is served: a condition on where its first zero byte lies |
| CoapUri.StringIsServed | cantcoap/cantcoap.cpp:461-509 | a zero-terminated string with its length is served |
| CoapUri.NotServed | cantcoap/cantcoap.cpp:461-509 | a path with a zero byte, and two slices, on which the scan loses a segment, runs into a negative length, and never ends |
| CoapUri.SetURI | cantcoap/cantcoap.cpp:439-515 | for any memory and length: what the scan finds is stored, in order, behind all options up to number 11, as far as the buffer has room; what is returned and counted; and whether the scan returns |
| CoapUri.GetURI | cantcoap/cantcoap.cpp:527-615 | succeeds exactly when there is room, and then gives the path of the options counted; the zero is behind it, or, when an option stands for the root, behind what was gathered before |
| CoapUri.UriRoundTrip | cantcoap/cantcoap.cpp:439-615 | splitting a path into segments and joining the options that hold them gives its normal form, for every sequence of bytes |
| CoapUri.StoreAndRead | cantcoap/cantcoap.cpp:439-615 | storing a served path in a new message and reading it into any buffer: success exactly with two bytes to spare, and the same path exactly when it is normal |
| JsonText.CollapseIsIdentityIff | MbedJSONValue/MbedJSONValue.h:473-509 | replacing empty containers by null changes nothing exactly when there are none |
| JsonText.IntTextFitsIff | MbedJSONValue/MbedJSONValue.cpp:84-88 | the text of an integer fits the ten bytes that it is printed into exactly from -99999999 to 999999999 |
| JsonRoundTrip.StringRoundTrip | MbedJSONValue/MbedJSONValue.h:436-471 | the escaped text of a string reads as the string, or is refused when it needs the `\u` escape |
| JsonRoundTrip.IntRoundTrip | MbedJSONValue/MbedJSONValue.h:511-532 | the text of an integer in front of anything that cannot extend it reads as that integer |
| JsonRoundTrip.CapitalExponent | MbedJSONValue/MbedJSONValue.h:525-530 | any digits with a capital exponent, negative or not, read as an integer, or as a double when that exceeds 31 bits |
| JsonRoundTrip.PowerIsDigits | MbedJSONValue/MbedJSONValue.h:525-530 | that integer is what the digits say with so many zeros behind them, or without so many of the last |
| JsonRoundTrip.ValueRoundTrip | MbedJSONValue/MbedJSONValue.h:534-564 | for every printable value and following text: parsing the printed value gives its collapsed form and stops exactly behind it, or fails when a string cannot be read |
| JsonRoundTrip.ElemsRoundTrip | MbedJSONValue/MbedJSONValue.h:473-488 | the loop over array elements, from any position on |
| JsonRoundTrip.MembersRoundTrip | MbedJSONValue/MbedJSONValue.h:490-509 | the loop over object members, from any position on, names being distinct |
| JsonRoundTrip.RoundTripIff | MbedJSONValue/MbedJSONValue.cpp:102-133 | printing and parsing gives the value back exactly when it needs no `\u` and has no empty container |
| JsonInput.Input.Getc | MbedJSONValue/MbedJSONValue.h:357-372 | delivers the next character, or the end, and counts lines once per character |
| JsonInput.Input.Ungetc | MbedJSONValue/MbedJSONValue.h:373-377 | the last character is to be read again |
| JsonInput.Input.Match | MbedJSONValue/MbedJSONValue.h:402-412 | a literal is matched character by character, with the cursor behind it |
| JsonInput.Input.ParseStringIn | MbedJSONValue/MbedJSONValue.h:436-471 | the loop does what the specification parser does, on every input |
| JsonInput.Input.ParseNumberIn | MbedJSONValue/MbedJSONValue.h:511-532 | collects the longest run of number characters; it must convert as a whole, and is a double exactly with a point, a lower-case `e` or a plus sign |
| JsonInput.Input.ParseArrayIn | MbedJSONValue/MbedJSONValue.h:473-488 | the array loop with its pushbacks does what the specification parser does |
| JsonInput.Input.ParseObjectIn | MbedJSONValue/MbedJSONValue.h:490-509 | the object loop with its pushbacks does what the specification parser does |
| JsonInput.Input.ParseValueIn | MbedJSONValue/MbedJSONValue.h:534-564 | the recursive parser ends on every input, with the outcome and cursor of the specification parser |
| JsonInput.SerializeStr | MbedJSONValue/MbedJSONValue.cpp:44-70 | the escape loop writes the text of the string |
| JsonInput.Serialize | MbedJSONValue/MbedJSONValue.cpp:102-133 | the serializer writes the text of the value |
| JsonInput.PrintAndParse | MbedJSONValue/MbedJSONValue.h:534-564 | printing a value, appending any text that does not extend a number, and parsing: accepted exactly when readable, with the collapsed value, and the appended text is left |
| UsbRam.MapOfBlocks | USBHost/USBHALHost2_LPC4088.cpp:86-88 | the map is determined by the live blocks, so removing a block brings back the map from before it |
| UsbRam.SkipIsSafe | USBHost/USBHALHost2_LPC4088.cpp:69-79 | skipping ahead by the count found in a used chunk passes over no possible start |
| UsbRam.MarkingAddsBlock | USBHost/USBHALHost2_LPC4088.cpp:86-88 | marking a free run adds one block and keeps all blocks disjoint and covering the used chunks |
| UsbRam.WholeRamStaysFree | USBHost/USBHALHost2_LPC4088.cpp:86-88 | after a block of all 256 chunks the same start still fits |
| UsbRam.EmptyRequestFitsAnywhere | USBHost/USBHALHost2_LPC4088.cpp:66-91 | a request for no bytes fits any aligned chunk, free or not, and marks none |
| UsbRam.ClearingRemovesBlock | USBHost/USBHALHost2_LPC4088.cpp:95-105 | clearing a block from its first chunk removes that block and no other |
| UsbRam.ClearingIsSafeIff | USBHost/USBHALHost2_LPC4088.cpp:95-105 | clearing from a used chunk leaves a map of blocks exactly when it is the first chunk of a block |
| UsbRam.Allocator.Malloc | USBHost/USBHALHost2_LPC4088.cpp:58-93 | returns the least chunk index that is free, aligned and fits; says that there is no memory exactly when no chunk begins a free run; returns the last such chunk without reserving it exactly when there are some and none is aligned; otherwise fails because the first aligned run goes past the end. The live blocks grow by exactly the new one, and the map still shows them exactly up to 255 chunks |
| UsbRam.HccaIsNotReserved | USBHost/USBHALHost_LPC4088.h:248-248 | a run in which the 256 bytes at a multiple of 256 that the driver asks for are returned and not reserved |
| UsbRam.Allocator.Free | USBHost/USBHALHost2_LPC4088.cpp:95-105 | removes the block, or fails without effect; the map stays valid exactly for the start of a live block |
| UsbRam.Allocator.constructor | USBHost/USBHALHost2_LPC4088.cpp:47-55 | the map starts with no block |
| OhciLists.ListIsAcyclic | USBHost/USBHALHost_LPC4088.cpp:589-601 | a list that ends visits no endpoint twice |
| OhciLists.HCCA.Enqueue | USBHost/USBHALHost_LPC4088.cpp:589-601 | each of the 32 lists is its old sequence followed by the endpoint once, acyclic, even when lists share tails |
| OhciLists.TdReverse | USBHost/USBHALHost_LPC4088.cpp:404-415 | the in-place reversal yields the reversed list over the same descriptors |
| OhciLists.TransferQueue.Enqueue | USBHost/USBHALHost_LPC4088.cpp:515-525 | the descriptor is appended to the queue, or nothing changes |
| OhciLists.DeliverDone | USBHost/USBHALHost_LPC4088.cpp:417-449 | every endpoint's done queue receives its own descriptors in the order of completion, as far as there is room |
| OhciLists.NothingLostIff | USBHost/USBHALHost_LPC4088.cpp:417-449 | no descriptor is lost exactly when those in the queue and the new ones are at most three |
| OhciLists.FourthIsLost | USBHost/USBHALHost_LPC4088.cpp:417-449 | four descriptors of one endpoint, the last of which is lost |
| TickerModel.FireWork | mbed/common/ticker_api.c:30-53 | every firing lowers a measure as long as no ticker without a delay comes up, so the interrupt loop ends while clock reads stay bounded, although tickers put themselves back |
| TickerModel.RunInOrder | mbed/common/ticker_api.c:26-54 | over a whole run events are handed out in due order, none early, and none that is due is left, whatever timers the attached functions start and stop meanwhile |
| TickerModel.EqualTimesFirstInFirstOut | mbed/common/ticker_api.c:64-76 | events with equal times that attached functions leave alone fire in the order in which they wait |
| TickerModel.FiresOnTime | mbed/common/ticker_api.c:26-54 | every event due at the last clock read, and left alone, has been handed to its handler |
| TickerModel.FiringsAt | mbed/common/Ticker.cpp:29-38 | the k-th firing is at start + k * delay, without drift |
| TickerModel.FiringsCount | mbed/common/Ticker.cpp:29-38 | there are exactly as many firings as fit up to the given time |
| TickerModel.RunFirings | mbed/common/Ticker.cpp:35-38 | in a run every event that attached functions leave alone fires exactly at those times up to the last clock read, and then waits for its next one or is gone |
| TickerEnding.EndsIff | mbed/common/ticker_api.c:30-53 | for any sorted queue and any clock that does not go back: the loop ends exactly when some clock read, the m-th, finds that the events with a delay have come up at most m times and the tickers without one not at all |
| TickerEnding.SettledStep | mbed/common/ticker_api.c:36-46 | firing one event brings that clock read exactly one round nearer |
| TickerEnding.RunIsRounds | mbed/common/ticker_api.c:26-54 | the run of the model is the rounds of the loop up to where it stops |
| TickerEnding.ZeroDelayNeverEnds | mbed/common/Ticker.cpp:35-38 | a queue and a clock on which the loop never ends |
| TickerRuns.EveryInterruptIsFair | mbed/common/ticker_api.c:26-115 | over any sequence of starts, stops and interrupts within the window, with attached functions that start and stop timers: the queue stays sorted, and every interrupt hands out everything due, in order, and what is left alone at its exact times, first in first out |
| TickerRuns.Perform | mbed/common/ticker_api.c:26-115 | one start, stop or interrupt on the linked list under 32-bit time does what it does to the sorted list; the list stays well linked and the match armed |
| TickerRuns.Replay | mbed/common/ticker_api.c:26-115 | so does any sequence of them |
| TickerQueue.BeforeIff | mbed/common/ticker_api.c:70-72 | wrapped timestamps compare like the times exactly when these lie within half a turn |
| TickerQueue.NotAfterInWindow | mbed/common/ticker_api.c:37-37 | the due test is right within half a turn |
| TickerQueue.WrappedPlaceInWindow | mbed/common/ticker_api.c:64-76 | where the walk over wrapped timestamps stops is where the due time belongs, within half a turn |
| TickerQueue.EventQueue.InsertEvent | mbed/common/ticker_api.c:56-88 | the event is linked in front of the first one that it is before; the list stays well linked and the match armed for the head |
| TickerQueue.EventQueue.InsertInWindow | mbed/common/ticker_api.c:56-88 | within the window an insertion is stable insertion by due time |
| TickerQueue.EventQueue.RemoveEvent | mbed/common/ticker_api.c:90-115 | exactly this event is taken out, if it is there; the match stays armed for the head or is off |
| TickerQueue.EventQueue.RemoveView | mbed/common/ticker_api.c:90-115 | what waits afterwards is what waited, without this event |
| TickerQueue.EventQueue.Setup | mbed/common/Ticker.cpp:29-33 | a timer that is started over waits once, one delay after the clock read, and is linked where its timestamp belongs among the others |
| TickerQueue.EventQueue.HandleEvent | mbed/common/Ticker.cpp:35-38 | a ticker puts itself back exactly one delay after its own due time, whatever the delay, and a timeout does not; then the timers that the attached function starts and stops are started and stopped |
| TickerQueue.EventQueue.IrqHandler | mbed/common/ticker_api.c:26-54 | the linked list under 32-bit time refines the run of the model, attached functions included, and the match is armed for what remains |
| Flash25.ProgramConcat | flash25spi/flash25spi.cpp:151-169 | programming two adjacent ranges is programming their concatenation |
| Flash25.ReadBackIff | flash25spi/flash25spi.cpp:151-193 | the data can be read back exactly when every bit that it needs set was set |
| Flash25.EraseWriteRead | flash25spi/flash25spi.cpp:126-228 | erasing a range, writing within it and reading gives the data; the rest is erased, and the outside as it was |
| Flash25.AcceptsIff | flash25spi/flash25spi.cpp:151-153 | which ranges the 32-bit check lets through, among them two bytes at 0xFFFFFFFF |
| Flash25.Flash.WritePage | flash25spi/flash25spi.cpp:171-193 | within one page the chip's wrapping program is a linear AND |
| Flash25.Flash.Write | flash25spi/flash25spi.cpp:151-169 | every page program stays in its page, and the whole is one linear AND of the data; out of range nothing changes |
| Flash25.Flash.Read | flash25spi/flash25spi.cpp:126-149 | returns the bytes of the range, and fails when it is empty or out of range |
| Flash25.Flash.ClearBlock | flash25spi/flash25spi.cpp:215-228 | sets all bits of the block that the address lies in, and nothing else |
| BlockTransfer.BlockRequestIff | USER/remoteupdate.cpp:416-418 | the Block2 bytes ask for this block in units of 1024 bytes exactly for numbers below 4096 |
| BlockTransfer.AttemptIff | USER/remoteupdate.cpp:404-511 | an attempt with its two counters comes to exactly what its one last exchange says: the first that fails to send, is malformed, is the first message lost, the sixth timeout in a row, the sixth status reply for a block, or the last block |
| BlockTransfer.TimeoutsInARow | USER/remoteupdate.cpp:436-446 | the counter of timeouts says how many exchanges just before timed out |
| BlockTransfer.SuccessIff | USER/remoteupdate.cpp:404-511 | result 0 with something stored means the whole image; result 0 with nothing stored means exactly a timeout of the first exchange |
| BlockTransfer.DeliveredIff | USER/remoteupdate.cpp:404-511 | the whole image is stored exactly when so many exchanges are bearable (few losses, nothing malformed, the first one answered) that they bring all its blocks |
| BlockTransfer.NothingStoredIff | USER/remoteupdate.cpp:404-511 | nothing is stored exactly when the attempt ends before its first block |
| FirmwareUpdate.AfterAttempt | USER/remoteupdate.cpp:372-402 | after any attempt the buffer used is marked, holds what was stored and is empty behind it, the other one is empty and next, and the rest of the flash is unchanged |
| FirmwareUpdate.Updater.ChooseBuffer | USER/remoteupdate.cpp:372-402 | marks the first buffer with a clear flag and erases the other, or reports that there is none |
| FirmwareUpdate.Updater.Download | USER/remoteupdate.cpp:344-512 | for every network that serves the image: ends, with the result and number of blocks of the attempt as specified, and with stated flash contents and length; no free buffer is the only other result |
| FirmwareUpdate.Updater.DownloadWithRetries | USER/remoteupdate.cpp:671-677 | attempts follow each other until one returns 0, at most six; over all of them the buffers alternate, a buffer is always available, the last one holds what its attempt stored, and the length grows by what all of them stored |
| FirmwareUpdate.Updater.DownloadInRounds | USER/remoteupdate.cpp:671-684 | the same over any number of rounds of attempts: who stored what, alternating buffers, and the length |
| FirmwareUpdate.RecordedLengthIff | USER/remoteupdate.cpp:492-494 | after a complete download the recorded length is the image's exactly when every attempt before it ended before its first block |
| FirmwareUpdate.FailedAttemptCounts | USER/remoteupdate.cpp:492-494 | an image of 1025 bytes and a connection that breaks once, on which 2049 bytes are recorded |
| SpiQueue.CircularBuffer.Push | mbed/api/CircularBuffer.h:37-47 | appends, over the oldest entry when full |
| SpiQueue.CircularBuffer.Pop | mbed/api/CircularBuffer.h:54-62 | takes the oldest entry, or fails when empty |
| SpiQueue.CircularBuffer.Full | mbed/api/CircularBuffer.h:76-78 | true exactly when all places hold an entry |
| SpiQueue.CircularBuffer.Empty | mbed/api/CircularBuffer.h:68-70 | true exactly when there is no entry |
| SpiQueue.Spi.StartOrQueue | mbed/common/SPI.cpp:71-141 | starts at once, queues, or refuses exactly when the queue is full; the ring is never overwritten, and no running transfer overrun |
| SpiQueue.Spi.DequeueTransaction | mbed/common/SPI.cpp:150-158 | the oldest waiting transfer starts |
| SpiQueue.Spi.IrqHandler | mbed/common/SPI.cpp:162-174 | what is started, waits and was accepted after an interrupt, for any transfers that the callback submits; a running transfer is overrun exactly when it submits two or more, or one while others wait; the order of acceptance is kept exactly when the transfer it starts goes in front of none or of its equals |
| SpiQueue.CallbackOverruns | mbed/common/SPI.cpp:162-174 | a callback that submits one transfer while another one waits: it is overrun, and the order is lost |
| SpiQueue.Spi.AbortAllTransfers | mbed/common/SPI.cpp:80-100 | nothing runs or waits afterwards |
| SpiQueue.Spi.Drain | mbed/common/SPI.cpp:162-174 | when interrupts keep coming and callbacks submit nothing, every accepted transfer was started exactly once and in order |
| HttpMap.EncodedIsWholeIff | http/data/HTTPMap.cpp:75-98 | a string is written in full exactly when its last character begins before the limit, and is shorter otherwise |
| HttpMap.ChunkFitsBuffer | http/data/HTTPMap.cpp:66-134 | what one call writes is never empty and never fills the buffer |
| HttpMap.ChunkIsWholeIff | http/data/HTTPMap.cpp:66-134 | a pair is written in full exactly when it fits |
| HttpMap.ChunksAreBodyIff | http/data/HTTPMap.cpp:57-200 | the bytes of all calls are as many as announced exactly when every pair fits, and then they are the body |
| HttpMap.SentInFullIff | http/data/HTTPMap.cpp:57-200 | then they also read as the stored pairs |
| HttpMap.LongValueIsCut | http/HTTPClient.cpp:205-251 | a pair whose value of 253 letters is cut, while 252 are sent in full |
| HttpMap.FormRoundTrip | http/data/HTTPMap.cpp:66-134 | the body decodes (percent-encoding, `+` for a space) to the stored pairs in order |
| HttpMap.HTTPMap.Put | http/data/HTTPMap.cpp:35-44 | appends a pair, up to 32 of them |
| HttpMap.HTTPMap.Clear | http/data/HTTPMap.cpp:46-50 | forgets all pairs |
| HttpMap.HTTPMap.Read | http/data/HTTPMap.cpp:57-136 | writes the next pair into the buffer and moves on, or reports the end and starts over |
| HttpMap.HTTPMap.GetDataLen | http/data/HTTPMap.cpp:150-200 | the length of the whole body |
| HttpMap.HTTPMap.SendAll | http/HTTPClient.cpp:205-251 | the client's loop sends every piece once; the announced length is what is sent exactly when every pair fits, and then the body reads as the pairs |

## Left out

- CoapPdu.CoapPDU.AddOption: with a payload, a record of the largest number that is wrong can let the walk end at the payload marker, which is then read as an option; that is not modelled (`StopsAtOption`). An option whose whole length exceeds 16 bits is cut in the code and overwrites memory.
- CoapPdu.CoapPDU.FindInsertionPosition: the same walk to the payload marker.
- CoapPdu.CoapPDU.SetToken: the resizing of a token in a message above 255 bytes for which there is room; it reads in front of the buffer (`LowestSourceIff`).
- CoapPdu.CoapPDU.Validate: messages on which the walk reads behind the buffer; two bytes of slack rule them out (`SlackSuffices`), as receive buffers have.
- CoapPdu.CoapPDU.ScanOptions: the same messages.
- CoapUri.SetURI: starts from a right record of the largest number, in a message without payload, with at most 65530 bytes in reach; what an endless scan does to a buffer that fills up, and what a negative length does, is not modelled.
- Flash25.Flash.Write: the end of the range fits 32 bits; for the ranges that wrap only the check is modelled (`AcceptsIff`).
- Flash25.Flash.Read: the same ranges.
- Flash25.Flash.WritePage: a program that runs past the end of its page, which the driver never issues (`Write`).
- Flash25.Flash.ClearBlock: the size that is erased is the block size of the device table, which the chip's erase command is taken to share.
- UsbRam.Allocator.Malloc: the search may read behind the map of 256 bytes; the model gives it as many cells as it can reach.
- HttpMap.HTTPMap.Read: buffers of at least three bytes, because the remaining length is computed without sign; the client uses 256.
- OhciLists.HCCA.Enqueue: an endpoint that already heads a list would be linked to itself; endpoints are enqueued once.
- CoapPdu.CoapPDU.SetPayload: bytes that are copied into a released buffer; where an allocator happens to leave the buffer in its place, they do reach the message.
- TickerQueue.EventQueue.IrqHandler: runs that come to an end (`EndsIff`), in which attached functions interfere only a bounded number of times; timestamps within half a turn of the counter.
- TickerEnding.EndsIff: attached functions leave the queue alone.
- SpiQueue.Spi.IrqHandler: one SPI object and atomic steps; the peripheral counts as free from the end of a transfer on, its driver is not part of this model.
- FirmwareUpdate.Updater.Download: the image fits its buffer, replies answer the current request, and the power stays on between steps; stale replies and power loss are not defended against.
- JSON values are datatypes: the in-place access operators, the deep copy and the error text are not part of the model. A double keeps its text; so does an integer outside 32 bits, whose conversion is undefined, and the rounding of fractions with a capital exponent is not modelled.
- Failing memory allocation, NULL arguments, and aliasing between the container and its callers' buffers.
- Printing and debugging functions, the content-format helper and the copy of the payload in the CoAP container.
- Sockets, status reports, the version record and the step machine around the download.
- USB registers and isochronous descriptors, SPI hardware, LEDs, waits and interrupt masking.
- The HTTP client apart from its sending loop, and the AT command interface.
