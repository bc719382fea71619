/** Whole runs of a message container: any edits in any order, then a payload, then the bytes go to a receiver. */
module CoapSession {
  import opened CoapWire
  import opened CoapOptions
  import opened CoapPdu

  datatype Edit = PutToken(bytes: seq<byte>) | PutOption(number: uint16, value: seq<byte>)

  function LastToken(edits: seq<Edit>): seq<byte> {
    if edits == [] then []
    else
      var last := edits[|edits| - 1];
      if last.PutToken? then last.bytes else LastToken(edits[..|edits| - 1])
  }

  function Added(edits: seq<Edit>): seq<CoapOption> {
    if edits == [] then []
    else
      var last, init := edits[|edits| - 1], Added(edits[..|edits| - 1]);
      if last.PutOption? then init + [CoapOption(last.number, last.value)] else init
  }

  lemma {:induction false} InsertLast(added: seq<CoapOption>, option: CoapOption)
    ensures InsertAll(added + [option]) == Insert(InsertAll(added), option)
  {
    assert (added + [option])[..|added|] == added;
  }

  ghost predicate Encodable(edits: seq<Edit>) {
    Small(InsertAll(Added(edits)))
  }

  /** The length of the message that some edits lead to. */
  ghost function MessageLength(order: HostOrder, edits: seq<Edit>): nat
    requires Encodable(edits)
  {
    COAP_HDR_SIZE + |LastToken(edits)| + |EncodeOptions(order, 0, InsertAll(Added(edits)))|
  }

  /** After these edits the next one is within what the container's interface allows: a token that the header can hold,
      in a message up to 255 bytes, or an option whose whole length fits 16 bits. */
  ghost predicate PermittedNext(order: HostOrder, edits: seq<Edit>, next: Edit) {
    match next
    case PutToken(bytes) => 1 <= |bytes| <= 8 && (Encodable(edits) ==> MessageLength(order, edits) <= 0xFF)
    case PutOption(number, value) => OptionLength(InsertAll(Added(edits)), number, value) <= MAX16
  }

  ghost predicate Permitted(order: HostOrder, edits: seq<Edit>) {
    forall i :: 0 <= i < |edits| ==> PermittedNext(order, edits[..i], edits[i])
  }

  /** The bytes that an option takes among these, when the record of the largest number is right. */
  ghost function OptionLength(opts: seq<CoapOption>, number: uint16, value: seq<byte>): nat {
    OptionSize(DeltaOf(opts, Last(0, opts), number), |value|)
  }

  /** Performs one edit on a container whose largest-number record is right. It cannot fail in a dynamic buffer. */
  method Perform(message: CoapPDU, edit: Edit)
    requires message.Valid() && message.payload == [] && !message.constructedFromBuffer
    requires Small(message.options) && message.maxAddedOptionNumber == Last(0, message.options)
    requires edit.PutToken? ==> 1 <= |edit.bytes| <= 8 && message.pduLength <= 0xFF
    requires edit.PutOption? ==> OptionLength(message.options, edit.number, edit.value) <= MAX16
    modifies message, message.pdu
    ensures message.Valid() && message.payload == [] && !message.constructedFromBuffer
    ensures message.pdu == old(message.pdu) || fresh(message.pdu)
    ensures Small(message.options) && message.maxAddedOptionNumber == Last(0, message.options)
    ensures message.token == if edit.PutToken? then edit.bytes else old(message.token)
    ensures message.options == if edit.PutOption? then Insert(old(message.options), CoapOption(edit.number, edit.value))
                               else old(message.options)
  {
    hide Encodes, Insert, InsertIndex, Chain, OutcomeLength;
    match edit
    case PutToken(bytes) =>
      var r := message.SetToken(bytes);
    case PutOption(number, value) =>
      ghost var option := CoapOption(number, value);
      AddOutcomeIsInsertIff(message.options, message.maxAddedOptionNumber, option);
      HintAfterAdding(message.options, message.maxAddedOptionNumber, option);
      InsertKeepsChain(message.options, option);
      HintAppends(message.options, message.maxAddedOptionNumber, number);
      var r := message.AddOption(number, value);
  }

  lemma {:induction false} HintAppends(opts: seq<CoapOption>, hint: uint16, number: uint16)
    requires Small(opts) && hint == Last(0, opts)
    ensures Appends(opts, hint, number) <==> number >= hint
  {
  }

  /** Performs all the edits on a fresh container. */
  method Build(order: HostOrder, edits: seq<Edit>) returns (message: CoapPDU)
    requires Permitted(order, edits)
    ensures fresh(message) && fresh(message.pdu) && message.order == order && message.Valid() && message.payload == []
    ensures !message.constructedFromBuffer
    ensures Small(message.options) && message.token == LastToken(edits) && message.options == InsertAll(Added(edits))
  {
    hide Encodes, Insert, InsertIndex, Chain, InsertAll, Added, LastToken, PermittedNext, OptionLength;
    message := new CoapPDU(order);
    NothingAdded();
    assert edits[..0] == [];
    for i := 0 to |edits|
      invariant fresh(message) && fresh(message.pdu) && message.order == order
      invariant message.Valid() && message.payload == [] && !message.constructedFromBuffer
      invariant Small(message.options) && message.maxAddedOptionNumber == Last(0, message.options)
      invariant message.token == LastToken(edits[..i]) && message.options == InsertAll(Added(edits[..i]))
    {
      message.BodyInBuffer();
      NextEdit(order, edits, i);
      Perform(message, edits[i]);
    }
    assert edits[..|edits|] == edits;
  }

  lemma {:induction false} NextEdit(order: HostOrder, edits: seq<Edit>, i: nat)
    requires i < |edits| && Permitted(order, edits)
    ensures var before, after, edit := edits[..i], edits[..i + 1], edits[i];
            LastToken(after) == (if edit.PutToken? then edit.bytes else LastToken(before)) &&
            InsertAll(Added(after)) == if edit.PutOption? then
                                         Insert(InsertAll(Added(before)), CoapOption(edit.number, edit.value))
                                       else InsertAll(Added(before))
    ensures edits[i].PutToken? ==>
              1 <= |edits[i].bytes| <= 8 && (Encodable(edits[..i]) ==> MessageLength(order, edits[..i]) <= 0xFF)
    ensures edits[i].PutOption? ==>
              OptionLength(InsertAll(Added(edits[..i])), edits[i].number, edits[i].value) <= MAX16
  {
    hide InsertAll, Insert, MessageLength, OptionLength, Encodable;
    assert PermittedNext(order, edits[..i], edits[i]);
    assert edits[..i + 1][..i] == edits[..i];
    if edits[i].PutOption? {
      InsertLast(Added(edits[..i]), CoapOption(edits[i].number, edits[i].value));
    }
  }

  lemma {:induction false} NothingAdded()
    ensures Small(InsertAll(Added([]))) && InsertAll(Added([])) == [] && LastToken([]) == []
  {
  }

  /** The bytes of a message arrive in a larger buffer, and a second container makes sense of them. */
  method Receive(order: HostOrder, bytes: seq<byte>) returns (received: CoapPDU, valid: int)
    ensures fresh(received) && fresh(received.pdu) && received.order == order
    ensures 0 <= received.pduLength <= received.bufferLength <= received.pdu.Length
    ensures received.pdu[..received.pduLength] == bytes
    ensures WellFormed(order, bytes) ==> valid == 1 && received.Valid() && received.numOptions == |received.options|
  {
    var buffer := new byte[|bytes| + 3];
    forall i | 0 <= i < |bytes| {
      buffer[i] := bytes[i];
    }
    assert buffer[..|bytes|] == bytes;
    received := new CoapPDU.FromBuffer(order, buffer, buffer.Length, buffer.Length);
    received.SetPDULength(|bytes|);
    assert received.pdu[..received.pduLength] == bytes;
    received.SlackOrWellFormed();
    valid := received.Validate();
  }

  /** Fills in the code, the message ID and the payload. */
  method Complete(message: CoapPDU, code: byte, messageID: uint16, payload: seq<byte>)
    requires message.Valid() && message.payload == [] && !message.constructedFromBuffer
    modifies message, message.pdu
    ensures message.Valid() && message.token == old(message.token) && message.options == old(message.options)
    ensures message.payload == payload
    ensures message.pduLength >= COAP_HDR_SIZE && message.pdu[1] == code && message.MessageID() == messageID
  {
    hide Encodes;
    FillHeader(message, code, messageID);
    message.HeaderInBuffer();
    ghost var header := message.pdu[..COAP_HDR_SIZE];
    if payload != [] {
      var r := message.SetPayload(payload);
    }
    message.HeaderInBuffer();
    assert message.pdu[..COAP_HDR_SIZE] == header;
    assert message.pdu[1] == header[1] && message.pdu[2] == header[2] && message.pdu[3] == header[3];
  }

  method FillHeader(message: CoapPDU, code: byte, messageID: uint16)
    requires message.Valid()
    modifies message.pdu
    ensures message.Valid() && message.pdu.Length >= COAP_HDR_SIZE
    ensures message.pdu[1] == code && message.MessageID() == messageID
  {
    message.HeaderInBuffer();
    message.SetCode(code);
    assert message.pdu[COAP_HDR_SIZE..] == old(message.pdu[COAP_HDR_SIZE..]);
    ghost var start := message.pdu[..2];
    message.SetMessageID(messageID);
    assert message.pdu[0] == start[0] && message.pdu[1] == start[1];
    message.HeaderEditKeepsValid();
  }

  /** A message means one thing only. */
  lemma {:induction false} EncodesOnce(order: HostOrder, s: seq<byte>, t1: seq<byte>, o1: seq<CoapOption>,
                                       p1: seq<byte>,
                                       t2: seq<byte>, o2: seq<CoapOption>, p2: seq<byte>)
    requires Encodes(order, s, t1, o1, p1) && Encodes(order, s, t2, o2, p2)
    ensures t1 == t2 && o1 == o2 && p1 == p2
  {
    EncodedIsDecoded(order, s, t1, o1, p1);
    EncodedIsDecoded(order, s, t2, o2, p2);
  }

  lemma {:induction false} EncodesWellFormed(order: HostOrder, s: seq<byte>, token: seq<byte>, opts: seq<CoapOption>,
                                             payload: seq<byte>)
    requires Encodes(order, s, token, opts, payload) && ValidCode(s[1])
    ensures WellFormed(order, s)
  {
    EncodedIsDecoded(order, s, token, opts, payload);
  }

  /** Whatever was built and sent is what the receiver finds: the token, the options in stable order of their
      numbers, the payload, the code and the message ID. */
  method BuildSendReceive(order: HostOrder, edits: seq<Edit>, code: byte, messageID: uint16, payload: seq<byte>)
    returns (received: CoapPDU, valid: int, views: seq<OptionView>)
    requires Permitted(order, edits) && ValidCode(code)
    ensures valid == 1 && received.Valid()
    ensures received.token == LastToken(edits) && received.options == InsertAll(Added(edits))
    ensures received.payload == payload && received.payloadLength == |payload|
    ensures received.pdu.Length >= COAP_HDR_SIZE && received.pdu[1] == code && received.MessageID() == messageID
    ensures |views| == |received.options| && forall i :: 0 <= i < |views| ==> received.Shows(views[i], i)
  {
    hide Encodes, Insert, InsertIndex, InsertAll, Chain, WellFormed;
    var message := Build(order, edits);
    Complete(message, code, messageID, payload);
    var bytes := message.pdu[..message.pduLength];
    EncodesWellFormed(order, bytes, message.token, message.options, payload);
    received, valid := Receive(order, bytes);
    EncodesOnce(order, bytes, message.token, message.options, payload, received.token, received.options,
                received.payload);
    views := received.GetOptions();
    received.HeaderInBuffer();
    assert bytes[1] == received.pdu[1] && bytes[2] == received.pdu[2] && bytes[3] == received.pdu[3];
  }

  /** The record of the largest number can be wrong: an addition that failed for lack of space spoils the next one,
      whose option gets another number. */
  method FailedAdditionSpoilsNext(order: HostOrder, long: seq<byte>, value: byte) returns (message: CoapPDU)
    requires 3 <= |long| <= 12
    ensures message.Valid() && message.options == [CoapOption(65487, [value])]
  {
    hide Encodes, EncodeOptions;
    var buffer := new byte[8];
    message := new CoapPDU.FromBuffer(order, buffer, 8, 0);
    SingleOption(order, 0, CoapOption(60, long));
    var r := message.AddOption(60, long);
    SingleOption(order, 60, CoapOption(11, [value]));
    r := message.AddOption(11, [value]);
  }

  lemma {:induction false} SingleOption(order: HostOrder, hint: uint16, option: CoapOption)
    requires option.number <= MAX16 && |option.value| <= 12
    ensures var number := (option.number - hint) % 0x1_0000;
            Small([]) && AddOutcome([], hint, option) == [CoapOption(number, option.value)] &&
            OutcomeLength(order, [], hint, option) == 1 + Extra(number) + |option.value| &&
            Appends([], hint, option.number)
  {
    OutcomeChain([], hint, option);
    AppendOutcome(order, [], hint, option);
  }

  /** The more-bit of a Block2 value of three bytes is not seen. */
  method LongBlock2IsMissed(order: HostOrder) returns (message: CoapPDU, r: int)
    ensures message.Valid() && message.options == [CoapOption(23, [0, 0, 8])]
    ensures r == 0 && RfcSaysMore(message.options)
  {
    hide Encodes, EncodeOptions;
    message := new CoapPDU(order);
    SingleOption(order, 0, CoapOption(23, [0, 0, 8]));
    var added := message.AddOption(23, [0, 0, 8]);
    assert message.options[..message.numOptions] == message.options;
    r := message.GetOptionsBlock2Next();
    assert message.options[0].value == [0, 0, 8] && IsBlock2(message.options[0]);
  }

  /** Resizing a payload in a buffer of the container's own: the result says success, but the bytes went to the released
      buffer, and the message still begins its payload with the old one. */
  method ResizedPayloadIsLost(order: HostOrder) returns (message: CoapPDU, r: int)
    ensures r == 0 && message.Valid() && message.payloadBuffer != message.pdu
    ensures |message.payload| == 2 && message.payload[0] == 1 && message.payload != [2, 3]
  {
    hide Encodes;
    message := new CoapPDU(order);
    r := message.SetPayload([1]);
    r := message.SetPayload([2, 3]);
    assert message.payload[..1] == [1];
  }

  /** A token of nine bytes is stored, and reported as a success, but the header still says that there is none. */
  method NineByteToken(order: HostOrder) returns (message: CoapPDU, r: int)
    ensures r == 0 && message.token == [1, 2, 3, 4, 5, 6, 7, 8, 9] && !message.Layout()
    ensures message.pduLength == 13 <= message.pdu.Length && message.pdu[0] % 16 == 0 &&
            message.pdu[COAP_HDR_SIZE..13] == message.token
  {
    hide Encodes, EncodeOptions;
    message := new CoapPDU(order);
    r := message.SetToken([1, 2, 3, 4, 5, 6, 7, 8, 9]);
    assert message.pdu[..13][0] == message.pdu[0] && message.pdu[..13][COAP_HDR_SIZE..] == message.token;
  }

  /** An option that is added behind all others when there is a payload already becomes part of the payload. */
  method OptionAfterPayload(order: HostOrder) returns (message: CoapPDU, r: int)
    ensures r == 0 && message.Layout() && message.options == [] && message.payload == [1, 0xB0]
  {
    hide Encodes, EncodeOptions, EncodeOption, JoinsPayload, StopsAtOption, DeltaOf, Small, AddOutcome, HintServes,
         Insert, OptionSize;
    message := new CoapPDU(order);
    r := message.SetPayload([1]);
    JoinsByte(order);
    r := message.AddOption(11, []);
  }

  lemma {:induction false} JoinsByte(order: HostOrder)
    ensures Small([]) && JoinsPayload([], [1], 0, 11) && StopsAtOption([], [1], 0, 11)
    ensures OptionSize(DeltaOf([], 0, 11), 0) <= MAX16 && EncodeOption(order, 11, []) == [0xB0]
  {
    NothingAdded();
  }

  /** An option that is inserted in front of another one is not counted. */
  method InsertedIsNotCounted(order: HostOrder) returns (message: CoapPDU)
    ensures message.Valid() && message.options == [CoapOption(7, []), CoapOption(11, [])] && message.numOptions == 1
  {
    hide Encodes, EncodeOptions;
    message := new CoapPDU(order);
    SingleOption(order, 0, CoapOption(11, []));
    var r := message.AddOption(11, []);
    OptionBefore(message.options);
    r := message.AddOption(7, []);
  }

  lemma {:induction false} OptionBefore(opts: seq<CoapOption>)
    requires opts == [CoapOption(11, [])]
    ensures Small(opts) && AddOutcome(opts, 11, CoapOption(7, [])) == [CoapOption(7, []), CoapOption(11, [])] &&
            !Appends(opts, 11, 7) && OptionSize(DeltaOf(opts, 11, 7), 0) <= MAX16
  {
    InsertIndexIs(opts, 7, 0);
    assert opts[1..] == [];
  }
}
