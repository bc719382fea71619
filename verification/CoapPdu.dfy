/** The CoAP message container: one byte buffer that every operation edits in place. */
module CoapPdu {
  import opened Buffers
  import opened CoapWire
  import opened CoapOptions

  const COAP_HDR_SIZE: nat := 4
  /** A NULL payload pointer; other payload pointers are indices into the buffer. */
  const NULL: int := -1

  /** The codes that the validator lets pass. */
  predicate ValidCode(code: byte) {
    code <= 4 || 0x41 <= code <= 0x45 || 0x80 <= code <= 0x86 || code == 0x8C || code == 0x8D || code == 0x8F ||
    0xA0 <= code <= 0xA5
  }

  lemma {:induction false} SliceOfSlice(s: seq<byte>, a: nat, b: nat, c: nat, d: nat)
    requires a <= b <= |s| && c <= d <= b - a
    ensures s[a..b][c..d] == s[a + c..a + d]
  {
    var t := s[a..b];
    forall i | 0 <= i < d - c
      ensures t[c..d][i] == s[a + c..a + d][i]
    {
      assert t[c + i] == s[a + (c + i)];
    }
  }

  /** A whole message: the four header bytes, the token whose length the header holds, the options, the payload. */
  predicate Encodes(order: HostOrder, s: seq<byte>, token: seq<byte>, opts: seq<CoapOption>, payload: seq<byte>) {
    COAP_HDR_SIZE <= |s| && |token| <= 8 && s[0] % 16 == |token| && Chain(0, opts) &&
    s[COAP_HDR_SIZE..] == token + (EncodeOptions(order, 0, opts) + PayloadPart(payload))
  }

  lemma {:induction false} HeaderAlone(order: HostOrder, s: seq<byte>)
    requires |s| == COAP_HDR_SIZE && s[0] % 16 == 0
    ensures Encodes(order, s, [], [], [])
  {
  }

  lemma {:induction false} EncodesAppended(order: HostOrder, s: seq<byte>, token: seq<byte>, opts: seq<CoapOption>,
                                           delta: uint16, value: seq<byte>)
    requires Encodes(order, s, token, opts, []) && |value| <= MAX16
    ensures Encodes(order, s + EncodeOption(order, delta, value), token,
                    opts + [CoapOption(Last(0, opts) + delta, value)], [])
  {
    hide EncodeOptions, EncodeOption, Chain;
    EncodeAppended(order, opts, CoapOption(Last(0, opts) + delta, value));
    var x, y := EncodeOptions(order, 0, opts), EncodeOption(order, delta, value);
    assert (s + y)[COAP_HDR_SIZE..] == s[COAP_HDR_SIZE..] + y;
    assert token + (x + []) + y == token + (x + y + []);
  }

  /** A message with a new option in front of the option at `pos`, whose delta shrinks from `oldDelta` to `newDelta`. */
  function Displaced(order: HostOrder, s: seq<byte>, pos: nat, oldDelta: uint16, newDelta: uint16, value: seq<byte>):
    seq<byte>
    requires newDelta <= oldDelta && pos + 1 + Extra(oldDelta) <= |s| && |value| <= MAX16
  {
    s[..pos] + EncodeOption(order, oldDelta - newDelta, value)
    + ([16 * Nibble(newDelta) + s[pos] % 16] + Extension(order, newDelta) + s[pos + 1 + Extra(oldDelta)..])
  }

  /** The steps from a buffer with a message of `n` bytes to one with the displaced option: the move, the shorter delta,
      and the new option. */
  lemma {:induction false} DisplacedBytes(order: HostOrder, s: seq<byte>, moved: seq<byte>, shortened: seq<byte>,
                                          inserted: seq<byte>, n: nat, pos: nat, hole: nat, oldDelta: uint16,
                                          newDelta: uint16, value: seq<byte>)
    requires newDelta <= oldDelta && pos + 1 + Extra(oldDelta) <= n && n + hole <= |s| && |value| <= MAX16
    requires hole == OptionSize(oldDelta - newDelta, |value|) + Extra(newDelta) - Extra(oldDelta)
    requires Extra(newDelta) <= Extra(oldDelta)
    requires var start := pos + OptionSize(oldDelta - newDelta, |value|);
             moved == Put(s, pos + hole, s[pos..n])[start := s[pos]] &&
             shortened == Put(moved, start, [16 * Nibble(newDelta) + s[pos] % 16] + Extension(order, newDelta)) &&
             inserted == Put(shortened, pos, EncodeOption(order, oldDelta - newDelta, value))
    ensures inserted[..n + hole] == Displaced(order, s[..n], pos, oldDelta, newDelta, value)
  {
    hide EncodeOption, Extension, Nibble, Extra, Put, OptionSize;
    PutIntoHole(s, pos, n, hole, 1 + Extra(oldDelta),
                [16 * Nibble(newDelta) + s[pos] % 16] + Extension(order, newDelta), s[pos],
                EncodeOption(order, oldDelta - newDelta, value));
    assert s[..n][..pos] == s[..pos];
    assert s[..n][pos + 1 + Extra(oldDelta)..] == s[pos + (1 + Extra(oldDelta))..n];
  }

  /** What the displaced option looks like in the message: its header byte and where its delta bytes end. */
  lemma {:induction false} DisplacedOption(order: HostOrder, s: seq<byte>, token: seq<byte>, opts: seq<CoapOption>,
                                           k: nat)
    requires Encodes(order, s, token, opts, []) && k < |opts|
    ensures Chain(0, opts[..k]) && Chain(opts[k].number, opts[k + 1..]) && |opts[k].value| <= MAX16
    ensures Last(0, opts[..k]) <= opts[k].number <= Last(0, opts[..k]) + MAX16
    ensures var pos, delta := COAP_HDR_SIZE + |token| + Start(order, opts, k), opts[k].number - Last(0, opts[..k]);
            pos + 1 + Extra(delta) <= |s| && s[pos] == OptionHeader(delta, |opts[k].value|) &&
            s[COAP_HDR_SIZE..pos] == token + EncodeOptions(order, 0, opts[..k]) &&
            s[pos + 1 + Extra(delta)..] == BehindDelta(order, opts, k)
  {
    hide EncodeOptions, Chain, OptionHeader, BehindDelta, Extension, Last;
    EncodeAt(order, opts, k);
    var a, delta := EncodeOptions(order, 0, opts[..k]), opts[k].number - Last(0, opts[..k]);
    var b, c := [OptionHeader(delta, |opts[k].value|)] + Extension(order, delta), BehindDelta(order, opts, k);
    var area := s[COAP_HDR_SIZE..];
    assert area == token + a + b + c;
    assert |token + a| == |token| + Start(order, opts, k);
    assert area[..|token + a|] == token + a;
    assert area[|token + a|] == b[0];
    assert area[|token + a + b|..] == c;
  }

  lemma {:induction false} EncodesInsertedFirst(order: HostOrder, s: seq<byte>, token: seq<byte>,
                                                opts: seq<CoapOption>, option: CoapOption)
    requires Encodes(order, s, token, opts, []) && Small(opts) && option.number <= MAX16 && |option.value| <= MAX16
    requires InsertIndex(opts, option.number) < |opts|
    ensures var k := InsertIndex(opts, option.number);
            var pos, base, newDelta := COAP_HDR_SIZE + |token| + Start(order, opts, k), Last(0, opts[..k]),
                                       opts[k].number - option.number;
            base <= option.number <= opts[k].number <= MAX16 && |opts[k].value| <= MAX16 &&
            pos + 1 + Extra(opts[k].number - base) <= |s| &&
            var t := Displaced(order, s, pos, opts[k].number - base, newDelta, option.value);
            Encodes(order, t, token, Insert(opts, option), []) &&
            |t| == |s| + OptionSize(option.number - base, |option.value|) + Extra(newDelta)
                   - Extra(opts[k].number - base) &&
            t[..COAP_HDR_SIZE] == s[..COAP_HDR_SIZE]
  {
    hide EncodeOptions, EncodeOption, Chain, BehindDelta, Extension, Last, Insert, InsertIndex, Nibble, Extra,
         OptionSize,
         Displaced, Encodes;
    var k := InsertIndex(opts, option.number);
    InsertionBounds(opts, option);
    EncodeInserted(order, opts, option, k);
    DisplacedOption(order, s, token, opts, k);
    HeaderNibbles(opts[k].number - Last(0, opts[..k]), |opts[k].value|);
    HeaderNibbles(opts[k].number - option.number, |opts[k].value|);
    var pos := COAP_HDR_SIZE + |token| + Start(order, opts, k);
    DisplacedParts(order, s, pos, opts[k].number - Last(0, opts[..k]), opts[k].number - option.number, option.value);
    var a, x := EncodeOptions(order, 0, opts[..k]),
      EncodeOption(order, option.number - Last(0, opts[..k]), option.value);
    var y := [OptionHeader(opts[k].number - option.number, |opts[k].value|)]
             + Extension(order, opts[k].number - option.number) + BehindDelta(order, opts, k);
    assert token + a + x + y == token + (a + x + y);
    EncodesOtherOptions(order, s,
                        Displaced(order, s, pos, opts[k].number - Last(0, opts[..k]), opts[k].number - option.number,
                                  option.value),
                        token, opts, Insert(opts, option));
  }

  lemma {:induction false} DisplacedParts(order: HostOrder, s: seq<byte>, pos: nat, oldDelta: uint16, newDelta: uint16,
                                          value: seq<byte>)
    requires newDelta <= oldDelta && COAP_HDR_SIZE <= pos && pos + 1 + Extra(oldDelta) <= |s| && |value| <= MAX16
    ensures var t := Displaced(order, s, pos, oldDelta, newDelta, value);
            |t| == |s| + OptionSize(oldDelta - newDelta, |value|) + Extra(newDelta) - Extra(oldDelta) &&
            |t| >= COAP_HDR_SIZE && t[..COAP_HDR_SIZE] == s[..COAP_HDR_SIZE] &&
            t[COAP_HDR_SIZE..] == s[COAP_HDR_SIZE..pos] + EncodeOption(order, oldDelta - newDelta, value)
              + ([16 * Nibble(newDelta) + s[pos] % 16] + Extension(order, newDelta) + s[pos + 1 + Extra(oldDelta)..])
  {
    hide EncodeOption, Extension, Nibble, Extra, OptionSize;
  }

  /** A message whose option area was exchanged. */
  lemma {:induction false} EncodesOtherOptions(order: HostOrder, s: seq<byte>, t: seq<byte>, token: seq<byte>,
                                               opts: seq<CoapOption>, newOpts: seq<CoapOption>)
    requires Encodes(order, s, token, opts, []) && Chain(0, newOpts)
    requires |t| >= COAP_HDR_SIZE && t[..COAP_HDR_SIZE] == s[..COAP_HDR_SIZE]
    requires t[COAP_HDR_SIZE..] == token + EncodeOptions(order, 0, newOpts)
    ensures Encodes(order, t, token, newOpts, [])
  {
    hide EncodeOptions, Chain;
    assert t[0] == t[..COAP_HDR_SIZE][0] == s[..COAP_HDR_SIZE][0];
    assert EncodeOptions(order, 0, newOpts) + [] == EncodeOptions(order, 0, newOpts);
  }

  // ----- Adding an option to a message

  /** Adding this option does not end its walk over the options at the payload marker. */
  predicate StopsAtOption(opts: seq<CoapOption>, payload: seq<byte>, hint: nat, number: nat) {
    payload == [] || number >= hint || InsertIndex(opts, number) < |opts|
  }

  /** The option is written behind the payload. */
  predicate JoinsPayload(opts: seq<CoapOption>, payload: seq<byte>, hint: nat, number: nat) {
    payload != [] && Appends(opts, hint, number)
  }

  /** The message `after` is what adding an option to the message `s` is to produce. */
  ghost predicate IsOutcome(order: HostOrder, s: seq<byte>, after: seq<byte>, token: seq<byte>, opts: seq<CoapOption>,
                            payload: seq<byte>, hint: uint16, option: CoapOption) {
    Small(opts) && option.number <= MAX16 && |option.value| <= MAX16 &&
    |s| >= COAP_HDR_SIZE && |after| >= COAP_HDR_SIZE && after[..COAP_HDR_SIZE] == s[..COAP_HDR_SIZE] &&
    if JoinsPayload(opts, payload, hint, option.number) then
      var bytes := EncodeOption(order, (option.number - hint) % 0x1_0000, option.value);
      |after| == |s| + |bytes| && Encodes(order, after, token, opts, payload + bytes)
    else
      Encodes(order, after, token, AddOutcome(opts, hint, option), payload) &&
      |after| == COAP_HDR_SIZE + |token| + OutcomeLength(order, opts, hint, option) + |PayloadPart(payload)|
  }

  lemma {:induction false} OutcomeOf(order: HostOrder, s: seq<byte>, after: seq<byte>, token: seq<byte>,
                                     opts: seq<CoapOption>, payload: seq<byte>, hint: uint16, option: CoapOption)
    requires IsOutcome(order, s, after, token, opts, payload, hint, option)
    ensures COAP_HDR_SIZE <= |s| && COAP_HDR_SIZE <= |after| && after[..COAP_HDR_SIZE] == s[..COAP_HDR_SIZE]
    ensures Small(opts) && option.number <= MAX16 && |option.value| <= MAX16
    ensures JoinsPayload(opts, payload, hint, option.number) ==>
              var bytes := EncodeOption(order, (option.number - hint) % 0x1_0000, option.value);
              |after| == |s| + |bytes| && Encodes(order, after, token, opts, payload + bytes)
    ensures !JoinsPayload(opts, payload, hint, option.number) ==>
              |after| == COAP_HDR_SIZE + |token| + OutcomeLength(order, opts, hint, option) + |PayloadPart(payload)| &&
              Encodes(order, after, token, AddOutcome(opts, hint, option), payload)
  {
  }

  lemma {:induction false} DisplacedInFront(order: HostOrder, s: seq<byte>, n: nat, pos: nat, oldDelta: uint16,
                                            newDelta: uint16, value: seq<byte>)
    requires newDelta <= oldDelta && pos + 1 + Extra(oldDelta) <= n <= |s| && |value| <= MAX16
    ensures Displaced(order, s, pos, oldDelta, newDelta, value)
         == Displaced(order, s[..n], pos, oldDelta, newDelta, value) + s[n..]
  {
    hide EncodeOption, Extension, Nibble, Extra;
    assert s[..n][..pos] == s[..pos];
    assert s[pos + 1 + Extra(oldDelta)..] == s[..n][pos + 1 + Extra(oldDelta)..] + s[n..];
  }

  /** The same insertion in a message with a payload. */
  lemma {:induction false} EncodesInserted(order: HostOrder, s: seq<byte>, token: seq<byte>, opts: seq<CoapOption>,
                                           payload: seq<byte>, option: CoapOption)
    requires Encodes(order, s, token, opts, payload) && Small(opts) && option.number <= MAX16
    requires |option.value| <= MAX16 && InsertIndex(opts, option.number) < |opts|
    ensures var k := InsertIndex(opts, option.number);
            var pos, base, newDelta := COAP_HDR_SIZE + |token| + Start(order, opts, k), Last(0, opts[..k]),
                                       opts[k].number - option.number;
            base <= option.number <= opts[k].number <= MAX16 && |opts[k].value| <= MAX16 &&
            pos + 1 + Extra(opts[k].number - base) <= |s| &&
            var t := Displaced(order, s, pos, opts[k].number - base, newDelta, option.value);
            Encodes(order, t, token, Insert(opts, option), payload) &&
            |t| == |s| + OptionSize(option.number - base, |option.value|) + Extra(newDelta)
                   - Extra(opts[k].number - base) &&
            t[..COAP_HDR_SIZE] == s[..COAP_HDR_SIZE]
  {
    hide Encodes, Last, Insert, InsertIndex, Extra, OptionSize, Displaced, Start, Small;
    if payload == [] {
      EncodesInsertedFirst(order, s, token, opts, option);
    } else {
      StartOf(opts);
      StripPayload(order, s, token, opts, payload);
      var n := |s| - |payload| - 1;
      EncodesInsertedFirst(order, s[..n], token, opts, option);
      var k := InsertIndex(opts, option.number);
      var pos, base := COAP_HDR_SIZE + |token| + Start(order, opts, k), Last(0, opts[..k]);
      DisplacedInFront(order, s, n, pos, opts[k].number - base, opts[k].number - option.number, option.value);
      var t := Displaced(order, s[..n], pos, opts[k].number - base, opts[k].number - option.number, option.value);
      EncodesPayload(order, t, token, Insert(opts, option), payload);
      assert s[n..] == [PAYLOAD_MARKER] + payload;
      assert t + s[n..] == t + [PAYLOAD_MARKER] + payload;
      assert s[..n][..COAP_HDR_SIZE] == s[..COAP_HDR_SIZE];
    }
  }

  lemma {:induction false} PartOfPayload(payload: seq<byte>)
    ensures |PayloadPart(payload)| == if payload == [] then 0 else |payload| + 1
    ensures payload != [] ==> PayloadPart(payload)[0] == PAYLOAD_MARKER
  {
  }

  lemma {:induction false} PayloadGrows(payload: seq<byte>, bytes: seq<byte>)
    requires payload != []
    ensures PayloadPart(payload + bytes) == PayloadPart(payload) + bytes
  {
  }

  /** Bytes behind a payload belong to it. */
  lemma {:induction false} EncodesLongerPayload(order: HostOrder, s: seq<byte>, token: seq<byte>, opts: seq<CoapOption>,
                                                payload: seq<byte>, bytes: seq<byte>)
    requires Encodes(order, s, token, opts, payload) && payload != []
    ensures Encodes(order, s + bytes, token, opts, payload + bytes)
  {
    hide EncodeOptions, Chain, PayloadPart;
    PayloadGrows(payload, bytes);
    var area, part := EncodeOptions(order, 0, opts), PayloadPart(payload);
    assert token + (area + part) + bytes == token + (area + (part + bytes));
    assert (s + bytes)[COAP_HDR_SIZE..] == s[COAP_HDR_SIZE..] + bytes;
  }

  lemma {:induction false} EncodedLength(order: HostOrder, s: seq<byte>, token: seq<byte>, opts: seq<CoapOption>,
                                         payload: seq<byte>)
    requires Encodes(order, s, token, opts, payload)
    ensures COAP_HDR_SIZE <= |s| && Chain(0, opts)
    ensures |s| == COAP_HDR_SIZE + |token| + |EncodeOptions(order, 0, opts)| + |PayloadPart(payload)|
  {
    hide EncodeOptions, Chain, PayloadPart;
    assert |s| == COAP_HDR_SIZE + |s[COAP_HDR_SIZE..]|;
  }

  /** The bytes that adding an option produces: one option longer at the end, or one option displaced. */
  ghost function Edited(order: HostOrder, s: seq<byte>, token: seq<byte>, opts: seq<CoapOption>, payload: seq<byte>,
                        hint: uint16, option: CoapOption): seq<byte>
    requires Encodes(order, s, token, opts, payload) && Small(opts) && option.number <= MAX16
    requires |option.value| <= MAX16
  {
    if Appends(opts, hint, option.number) then
      s + EncodeOption(order, (option.number - AppendBase(opts, hint, option.number)) % 0x1_0000, option.value)
    else
      var k := InsertIndex(opts, option.number);
      EncodesInserted(order, s, token, opts, payload, option);
      Displaced(order, s, COAP_HDR_SIZE + |token| + Start(order, opts, k), opts[k].number - Last(0, opts[..k]),
                opts[k].number - option.number, option.value)
  }

  lemma {:induction false} EditedIsOutcome(order: HostOrder, s: seq<byte>, token: seq<byte>, opts: seq<CoapOption>,
                                           payload: seq<byte>, hint: uint16, option: CoapOption)
    requires Encodes(order, s, token, opts, payload) && Small(opts) && option.number <= MAX16
    requires |option.value| <= MAX16 && StopsAtOption(opts, payload, hint, option.number)
    ensures IsOutcome(order, s, Edited(order, s, token, opts, payload, hint, option), token, opts, payload, hint,
                      option)
  {
    hide *;
    if JoinsPayload(opts, payload, hint, option.number) {
      JoiningIsOutcome(order, s, token, opts, payload, hint, option);
    } else if Appends(opts, hint, option.number) {
      AppendingIsOutcome(order, s, token, opts, payload, hint, option);
    } else {
      InsertingIsOutcome(order, s, token, opts, payload, hint, option);
    }
  }

  lemma {:induction false} JoiningIsOutcome(order: HostOrder, s: seq<byte>, token: seq<byte>, opts: seq<CoapOption>,
                                            payload: seq<byte>, hint: uint16, option: CoapOption)
    requires Encodes(order, s, token, opts, payload) && Small(opts) && option.number <= MAX16
    requires |option.value| <= MAX16 && StopsAtOption(opts, payload, hint, option.number)
    requires JoinsPayload(opts, payload, hint, option.number)
    ensures IsOutcome(order, s, Edited(order, s, token, opts, payload, hint, option), token, opts, payload, hint,
                      option)
  {
    hide Encodes, Appends, AppendBase, EncodeOption, Small;
    AppendsByHint(opts, payload, hint, option.number);
    EncodedLength(order, s, token, opts, payload);
    EncodesLongerPayload(order, s, token, opts, payload,
                         EncodeOption(order, (option.number - hint) % 0x1_0000, option.value));
  }

  lemma {:induction false} AppendingIsOutcome(order: HostOrder, s: seq<byte>, token: seq<byte>, opts: seq<CoapOption>,
                                              payload: seq<byte>, hint: uint16, option: CoapOption)
    requires Encodes(order, s, token, opts, payload) && Small(opts) && option.number <= MAX16
    requires |option.value| <= MAX16 && !JoinsPayload(opts, payload, hint, option.number)
    requires Appends(opts, hint, option.number)
    ensures IsOutcome(order, s, Edited(order, s, token, opts, payload, hint, option), token, opts, payload, hint,
                      option)
  {
    hide Encodes, EncodeOptions, Appends, AddOutcome, AppendBase, EncodeOption, Small, Chain;
    var delta := (option.number - AppendBase(opts, hint, option.number)) % 0x1_0000;
    AppendOutcome(order, opts, hint, option);
    EncodesAppended(order, s, token, opts, delta, option.value);
    EncodedLength(order, s, token, opts, payload);
  }

  lemma {:induction false} InsertingIsOutcome(order: HostOrder, s: seq<byte>, token: seq<byte>, opts: seq<CoapOption>,
                                              payload: seq<byte>, hint: uint16, option: CoapOption)
    requires Encodes(order, s, token, opts, payload) && Small(opts) && option.number <= MAX16
    requires |option.value| <= MAX16 && !Appends(opts, hint, option.number)
    ensures IsOutcome(order, s, Edited(order, s, token, opts, payload, hint, option), token, opts, payload, hint,
                      option)
  {
    hide Encodes, EncodeOptions, EncodeOption, InsertIndex, Insert, Displaced, Start, Small, Chain, Extra, OptionSize,
         PayloadPart, Last;
    InsertedLength(order, opts, option);
    EncodesInserted(order, s, token, opts, payload, option);
    EncodedLength(order, s, token, opts, payload);
  }

  lemma {:induction false} AppendsByHint(opts: seq<CoapOption>, payload: seq<byte>, hint: nat, number: nat)
    requires payload != [] && StopsAtOption(opts, payload, hint, number) && Appends(opts, hint, number)
    ensures number >= hint && AppendBase(opts, hint, number) == hint
  {
  }

  /** An addition is stable insertion, with the payload as it was, exactly when the record of the largest number serves,
      and there is no payload or the option goes in front of another one. */
  lemma {:induction false} AddedAsMeantIff(opts: seq<CoapOption>, payload: seq<byte>, hint: uint16, option: CoapOption)
    requires Small(opts) && option.number <= MAX16 && StopsAtOption(opts, payload, hint, option.number)
    ensures !JoinsPayload(opts, payload, hint, option.number) && AddOutcome(opts, hint, option) == Insert(opts, option)
       <==> HintServes(opts, hint, option.number) && (payload == [] || option.number < hint)
  {
    hide Small, AddOutcome, Insert, HintServes;
    AddOutcomeIsInsertIff(opts, hint, option);
  }

  // ----- Other edits of a message

  function WithTokenLength(header: byte, length: nat): byte {
    if length > 8 then header else header - header % 16 + length
  }

  /** A message with its token replaced. The header holds the new length only if that is at most 8. */
  function Retokened(s: seq<byte>, oldLength: nat, newToken: seq<byte>): seq<byte>
    requires COAP_HDR_SIZE + oldLength <= |s|
  {
    [WithTokenLength(s[0], |newToken|)] + s[1..COAP_HDR_SIZE] + newToken + s[COAP_HDR_SIZE + oldLength..]
  }

  /** The parts of a message that a longer token leaves behind: the rest is moved up first. */
  lemma {:induction false} GrownToken(s: seq<byte>, n: nat, oldLength: nat, newToken: seq<byte>)
    requires oldLength < |newToken| && COAP_HDR_SIZE + oldLength <= n && n - oldLength + |newToken| <= |s|
    ensures var end := COAP_HDR_SIZE + |newToken|;
            var t := Put(Put(s, end, s[COAP_HDR_SIZE + oldLength..n]), COAP_HDR_SIZE, newToken);
            t[0] == s[0] &&
            t[0 := WithTokenLength(s[0], |newToken|)][..n - oldLength + |newToken|]
              == Retokened(s[..n], oldLength, newToken)
  {
    hide WithTokenLength;
    assert s[..n][COAP_HDR_SIZE + oldLength..] == s[COAP_HDR_SIZE + oldLength..n];
  }

  /** The same for a shorter token, which is written first. */
  lemma {:induction false} ShrunkToken(s: seq<byte>, n: nat, oldLength: nat, newToken: seq<byte>)
    requires |newToken| < oldLength && COAP_HDR_SIZE + oldLength <= n <= |s|
    ensures var written := Put(s, COAP_HDR_SIZE, newToken);
            var t := Put(written, COAP_HDR_SIZE + |newToken|, written[COAP_HDR_SIZE + oldLength..n]);
            t[0] == s[0] &&
            t[..n - oldLength + |newToken|][0 := WithTokenLength(s[0], |newToken|)]
              == Retokened(s[..n], oldLength, newToken)
  {
    hide WithTokenLength;
    var rest := s[COAP_HDR_SIZE + oldLength..n];
    assert s[..n][COAP_HDR_SIZE + oldLength..] == rest;
    assert Put(s, COAP_HDR_SIZE, newToken)[COAP_HDR_SIZE + oldLength..n] == rest;
  }

  lemma {:induction false} SameLengthToken(s: seq<byte>, n: nat, newToken: seq<byte>)
    requires COAP_HDR_SIZE + |newToken| <= n <= |s| && s[0] % 16 == |newToken|
    ensures Put(s, COAP_HDR_SIZE, newToken)[..n] == Retokened(s[..n], |newToken|, newToken)
  {
    PutPrefix(s, COAP_HDR_SIZE, newToken, n);
    assert s[..COAP_HDR_SIZE] == [s[0]] + s[1..COAP_HDR_SIZE];
  }

  lemma {:induction false} EncodesRetokened(order: HostOrder, s: seq<byte>, token: seq<byte>, newToken: seq<byte>,
                                            opts: seq<CoapOption>, payload: seq<byte>)
    requires Encodes(order, s, token, opts, payload)
    ensures Encodes(order, Retokened(s, |token|, newToken), newToken, opts, payload) <==> |newToken| <= 8
  {
    hide EncodeOptions, Chain, PayloadPart;
    var area := EncodeOptions(order, 0, opts) + PayloadPart(payload);
    assert s[COAP_HDR_SIZE + |token|..] == s[COAP_HDR_SIZE..][|token|..] == area;
    var t := Retokened(s, |token|, newToken);
    assert t[COAP_HDR_SIZE..] == newToken + area;
  }

  lemma {:induction false} EncodesPayload(order: HostOrder, s: seq<byte>, token: seq<byte>, opts: seq<CoapOption>,
                                          payload: seq<byte>)
    requires Encodes(order, s, token, opts, []) && payload != []
    ensures Encodes(order, s + [PAYLOAD_MARKER] + payload, token, opts, payload)
  {
    hide EncodeOptions, Chain, PayloadPart;
    NoPayload(payload);
    var area, part := EncodeOptions(order, 0, opts), PayloadPart(payload);
    assert s + [PAYLOAD_MARKER] + payload == s + part;
    assert (s + part)[COAP_HDR_SIZE..] == s[COAP_HDR_SIZE..] + part;
    assert token + (area + []) + part == token + (area + part);
  }

  lemma {:induction false} NoPayload(payload: seq<byte>)
    ensures PayloadPart([]) == []
    ensures payload != [] ==> PayloadPart(payload) == [PAYLOAD_MARKER] + payload
  {
  }

  lemma {:induction false} StripPayload(order: HostOrder, s: seq<byte>, token: seq<byte>, opts: seq<CoapOption>,
                                        payload: seq<byte>)
    requires Encodes(order, s, token, opts, payload) && payload != []
    ensures COAP_HDR_SIZE < |s| - |payload|
    ensures var n := |s| - |payload| - 1;
            Encodes(order, s[..n], token, opts, []) && s[n] == PAYLOAD_MARKER && s[n + 1..] == payload
  {
    hide EncodeOptions, Chain;
    var encoded := EncodeOptions(order, 0, opts);
    assert token + (encoded + ([PAYLOAD_MARKER] + payload)) == token + encoded + ([PAYLOAD_MARKER] + payload);
    SplitEnd(s, COAP_HDR_SIZE, token + encoded, PAYLOAD_MARKER, payload);
    assert encoded + [] == encoded;
  }

  lemma {:induction false} EncodesNewPayload(order: HostOrder, s: seq<byte>, token: seq<byte>, opts: seq<CoapOption>,
                                             previous: seq<byte>, payload: seq<byte>)
    requires Encodes(order, s, token, opts, previous) && previous != [] && payload != []
    ensures |previous| < |s| && Encodes(order, s[..|s| - |previous|] + payload, token, opts, payload)
  {
    hide Encodes;
    StripPayload(order, s, token, opts, previous);
    EncodesPayload(order, s[..|s| - |previous| - 1], token, opts, payload);
    assert s[..|s| - |previous|] == s[..|s| - |previous| - 1] + [PAYLOAD_MARKER];
  }

  /** How many elements survive a change of the length. */
  ghost function Kept<T>(s: seq<T>, newLength: nat): (kept: nat)
    ensures kept <= newLength && kept <= |s|
  {
    if newLength < |s| then newLength else |s|
  }

  lemma {:induction false} KeptPayload(order: HostOrder, s: seq<byte>, resized: seq<byte>, token: seq<byte>,
                                       opts: seq<CoapOption>, payload: seq<byte>)
    requires Encodes(order, s, token, opts, payload) && payload != [] && |s| - |payload| <= |resized|
    requires resized[..Kept(s, |resized|)] == s[..Kept(s, |resized|)]
    ensures |payload| < |s|
    ensures var start := |s| - |payload|;
            var kept := Kept(payload, |resized| - start);
            resized[start..][..kept] == payload[..kept]
  {
    hide Encodes;
    StripPayload(order, s, token, opts, payload);
    var start := |s| - |payload|;
    var kept := Kept(payload, |resized| - start);
    assert resized[start..][..kept] == resized[..Kept(s, |resized|)][start..];
    assert payload[..kept] == s[..Kept(s, |resized|)][start..];
  }

  /** A message that lost its end is not the same message. */
  lemma {:induction false} CutDoesNotEncode(order: HostOrder, s: seq<byte>, n: nat, token: seq<byte>,
                                            opts: seq<CoapOption>,
                                            payload: seq<byte>)
    requires Encodes(order, s, token, opts, payload) && n <= |s|
    ensures Encodes(order, s[..n], token, opts, payload) <==> n == |s|
  {
    hide EncodeOptions, Chain;
    assert s[..|s|] == s;
  }

  /** The lowest position that is read when the bytes behind a token are shifted up. The old length of the message is
      kept in eight bits for that. */
  function LowestSource(length: nat, oldToken: nat, newToken: nat): int {
    var oldLength, newLength := length % 0x100, length - oldToken + newToken;
    var shiftOffset, shiftAmount := newLength - oldLength, newLength - newToken - COAP_HDR_SIZE;
    newLength - 1 - shiftOffset - (shiftAmount - 1)
  }

  /** It is the first position behind the token exactly when the message is at most 255 bytes long, and otherwise lies
      in front of the buffer. */
  lemma {:induction false} LowestSourceIff(length: nat, oldToken: nat, newToken: nat)
    requires COAP_HDR_SIZE + oldToken <= length && oldToken <= 8 && newToken <= 0xFF
    ensures LowestSource(length, oldToken, newToken) == COAP_HDR_SIZE + oldToken <==> length <= 0xFF
    ensures LowestSource(length, oldToken, newToken) < 0 <==> length > 0xFF
  {
  }

  /** One entry of the list of options that a message gives out; pointers are indices into its buffer. */
  datatype OptionView = OptionView(delta: uint16, number: uint16, valueLength: uint16, totalLength: nat,
                                   optionPointer: nat, valuePointer: nat)

  const COAP_OPTION_BLOCK2: uint16 := 23

  /** The more-bit of a Block2 value (section 2.2 of RFC 7959), as far as the code reads one: up to two bytes. */
  predicate MoreBit(value: seq<byte>) {
    1 <= |value| <= 2 && value[|value| - 1] / 8 % 2 == 1
  }

  /** The same bit as RFC 7959 has it: values are up to three bytes long, and it is in the last one. */
  predicate RfcMoreBit(value: seq<byte>) {
    value != [] && value[|value| - 1] / 8 % 2 == 1
  }

  predicate IsBlock2(option: CoapOption) {
    option.number % 0x1_0000 == COAP_OPTION_BLOCK2
  }

  /** Some Block2 option says so in the way that the code, or the standard, reads it. */
  ghost predicate SaysMore(opts: seq<CoapOption>) {
    exists i :: 0 <= i < |opts| && IsBlock2(opts[i]) && MoreBit(opts[i].value)
  }

  ghost predicate RfcSaysMore(opts: seq<CoapOption>) {
    exists i :: 0 <= i < |opts| && IsBlock2(opts[i]) && RfcMoreBit(opts[i].value)
  }

  lemma {:induction false} MoreBitIff(value: seq<byte>)
    ensures (MoreBit(value) <==> RfcMoreBit(value)) <==> |value| <= 2 || !RfcMoreBit(value)
  {
  }

  /** The code is right about more blocks exactly when it says so, or no Block2 value of three bytes or more has the bit
      set. */
  lemma {:induction false} SaysMoreIff(opts: seq<CoapOption>)
    ensures (SaysMore(opts) <==> RfcSaysMore(opts)) <==>
            SaysMore(opts) ||
            forall i :: 0 <= i < |opts| && IsBlock2(opts[i]) && |opts[i].value| > 2 ==> !RfcMoreBit(opts[i].value)
  {
    if i :| 0 <= i < |opts| && IsBlock2(opts[i]) && MoreBit(opts[i].value) {
      MoreBitIff(opts[i].value);
    }
    if i :| 0 <= i < |opts| && IsBlock2(opts[i]) && RfcMoreBit(opts[i].value) {
      MoreBitIff(opts[i].value);
    }
  }

  /** The message ID as it is written. */
  function MessageIDBytes(order: HostOrder, messageID: uint16): seq<byte> {
    [Htons(order, messageID) / 0x100, Htons(order, messageID) % 0x100]
  }

  /** RFC 7252, section 3, wants it in network byte order. */
  lemma {:induction false} MessageIDOrderIff(order: HostOrder, messageID: uint16)
    ensures MessageIDBytes(order, messageID) == [messageID / 0x100, messageID % 0x100]
       <==> order == BigEndian || messageID / 0x100 == messageID % 0x100
  {
    var bytes := MessageIDBytes(order, messageID);
    assert bytes == [messageID / 0x100, messageID % 0x100]
      <==> bytes[0] == messageID / 0x100 && bytes[1] == messageID % 0x100;
  }

  predicate HeaderAccepted(s: seq<byte>) {
    COAP_HDR_SIZE <= |s| && s[0] % 16 <= 8 && COAP_HDR_SIZE + s[0] % 16 <= |s| && ValidCode(s[1])
  }

  function OptionArea(s: seq<byte>): seq<byte>
    requires HeaderAccepted(s)
  {
    s[COAP_HDR_SIZE + s[0] % 16..]
  }

  /** The message is one that a sender can mean. */
  ghost predicate WellFormed(order: HostOrder, s: seq<byte>) {
    HeaderAccepted(s) && DecodeOptions(order, 0, OptionArea(s)).Decoded?
  }

  /** Exactly the encodings of some token, options and payload under a known code are well formed. */
  lemma {:induction false} WellFormedIff(order: HostOrder, s: seq<byte>)
    ensures WellFormed(order, s) <==>
            COAP_HDR_SIZE <= |s| && ValidCode(s[1]) &&
              exists token, opts, payload :: Encodes(order, s, token, opts, payload)
  {
    if WellFormed(order, s) {
      var d := DecodeOptions(order, 0, OptionArea(s));
      DecodedIsEncoded(order, s);
    }
    if COAP_HDR_SIZE <= |s| && ValidCode(s[1]) &&
      exists token, opts, payload :: Encodes(order, s, token, opts, payload) {
      var token, opts, payload :| Encodes(order, s, token, opts, payload);
      EncodedIsDecoded(order, s, token, opts, payload);
    }
  }

  lemma {:induction false} DecodedIsEncoded(order: HostOrder, s: seq<byte>)
    requires WellFormed(order, s)
    ensures var d := DecodeOptions(order, 0, OptionArea(s));
            Encodes(order, s, s[COAP_HDR_SIZE..COAP_HDR_SIZE + s[0] % 16], d.options, d.payload)
  {
    hide DecodeOptions, EncodeOptions, Chain;
    EncodeDecode(order, 0, OptionArea(s));
    var n := COAP_HDR_SIZE + s[0] % 16;
    assert s[COAP_HDR_SIZE..] == s[COAP_HDR_SIZE..n] + s[n..];
  }

  lemma {:induction false} EncodedIsDecoded(order: HostOrder, s: seq<byte>, token: seq<byte>, opts: seq<CoapOption>,
                                            payload: seq<byte>)
    requires Encodes(order, s, token, opts, payload)
    ensures COAP_HDR_SIZE + |token| <= |s| && token == s[COAP_HDR_SIZE..COAP_HDR_SIZE + |token|]
    ensures DecodeOptions(order, 0, s[COAP_HDR_SIZE + |token|..]) == Decoded(opts, payload)
  {
    hide EncodeOptions, DecodeOptions, Chain;
    DecodeEncode(order, 0, opts, payload);
    var area := s[COAP_HDR_SIZE..];
    assert area[..|token|] == token == s[COAP_HDR_SIZE..COAP_HDR_SIZE + |token|];
    assert area[|token|..] == s[COAP_HDR_SIZE + |token|..] == EncodeOptions(order, 0, opts) + PayloadPart(payload);
  }

  class CoapPDU {
    const order: HostOrder

    var pdu: array<byte>
    var pduLength: int
    var constructedFromBuffer: bool
    var bufferLength: int
    /** The payload pointer: an index into the array that was the buffer when the pointer was made. */
    var payloadPointer: int
    var payloadBuffer: array<byte>
    var payloadLength: int
    var numOptions: int
    var maxAddedOptionNumber: uint16

    ghost var token: seq<byte>
    ghost var options: seq<CoapOption>
    ghost var payload: seq<byte>

    /** The option area and the payload, as they are encoded. */
    ghost function Body(): seq<byte>
      reads this
      requires Chain(0, options)
    {
      EncodeOptions(order, 0, options) + PayloadPart(payload)
    }

    /** The buffer holds the encoding of `token`, `options` and `payload`. */
    ghost predicate Layout()
      reads this, pdu
    {
      0 <= pduLength <= bufferLength <= pdu.Length && Encodes(order, pdu[..pduLength], token, options, payload)
    }

    ghost predicate Valid()
      reads this, pdu
    {
      Layout() && payloadLength == |payload| &&
      payloadPointer == (if payload == [] then NULL else pduLength - payloadLength)
    }

    /** The payload pointer, if there is one, points into the buffer. */
    ghost predicate PayloadInside()
      reads this
    {
      payload == [] || payloadBuffer == pdu
    }

    /** Making room for `len` bytes of payload leaves the pointer where the buffer is: a first payload gets a new
        pointer, an outside buffer stays, and so does one that already has the length. */
    ghost predicate KeepsPointer(len: nat)
      reads this
    {
      payload == [] || (payloadBuffer == pdu && (constructedFromBuffer || len == payloadLength))
    }

    // ----- Reading a field of an option

    /** The code's `computeExtraBytes` is `Extra`. The delta of the option at a position, cut to 16 bits. */
    function GetOptionDelta(pos: nat): (delta: uint16)
      reads this, pdu
      requires pos <= pdu.Length && HeaderPresent(pdu[pos..])
      ensures delta == ScannedDelta(order, pdu[pos..])
    {
      var nibble := pdu[pos] / 16;
      if nibble < 13 then nibble
      else if nibble == 13 then pdu[pos + 1] as int + 13
      else (Htons(order, pdu[pos + 1] as int * 0x100 + pdu[pos + 2]) + 269) % 0x1_0000
    }

    /** The length of the value of the option at a position, cut to 16 bits. */
    function GetOptionValueLength(pos: nat): (length: uint16)
      reads this, pdu
      requires pos <= pdu.Length && HeaderPresent(pdu[pos..])
      ensures length == ScannedLength(order, pdu[pos..])
    {
      var delta, length := pdu[pos] / 16, pdu[pos] % 16;
      if length < 13 then length
      else
        var offset := if delta == 13 then 2 else if delta == 14 then 3 else 1;
        if length == 13 then pdu[pos + offset] as int + 13
        else (Htons(order, pdu[pos + offset] as int * 0x100 + pdu[pos + offset + 1]) + 269) % 0x1_0000
    }

    // ----- Writing an option

    method SetOptionDelta(position: nat, delta: uint16)
      requires position + Extra(delta) < pdu.Length
      modifies pdu
      ensures pdu[..] == Put(old(pdu[..]), position,
                             [16 * Nibble(delta) + old(pdu[position]) % 16] + Extension(order, delta))
    {
      hide Htons;
      pdu[position] := pdu[position] % 16;
      if delta < 13 {
        pdu[position] := pdu[position] + 16 * delta;
      } else if delta < 269 {
        pdu[position] := pdu[position] + 0xD0;
        pdu[position + 1] := delta - 13;
      } else {
        pdu[position] := pdu[position] + 0xE0;
        var networkOrder := Htons(order, delta - 269);
        pdu[position + 1] := networkOrder / 0x100;
        pdu[position + 2] := networkOrder % 0x100;
      }
    }

    method InsertOption(insertionPosition: nat, delta: uint16, value: seq<byte>)
      requires |value| <= MAX16 && insertionPosition + OptionSize(delta, |value|) <= pdu.Length
      modifies pdu
      ensures pdu[..] == Put(old(pdu[..]), insertionPosition, EncodeOption(order, delta, value))
    {
      hide Put, Extension, Nibble, Extra;
      ghost var before := pdu[..];
      pdu[insertionPosition] := 0;
      assert pdu[..] == before[insertionPosition := 0];
      SetOptionDelta(insertionPosition, delta);
      var pos := insertionPosition + 1 + Extra(delta);
      SetOptionLength(insertionPosition, pos, |value|);
      pos := pos + Extra(|value|);
      CopyInto(pos, value);
      PutAround(before, insertionPosition, 0, 16 * Nibble(delta), OptionHeader(delta, |value|), Extension(order, delta),
                Extension(order, |value|), value);
    }

    /** The length half of the insertion: the low nibble at `header`, the extension bytes at `position`. */
    method SetOptionLength(header: nat, position: nat, length: uint16)
      requires header < position && position + Extra(length) <= pdu.Length && pdu[header] % 16 == 0
      modifies pdu
      ensures pdu[..] == Put(old(pdu[..])[header := old(pdu[header]) + Nibble(length)], position,
                             Extension(order, length))
    {
      hide Htons;
      if length < 13 {
        pdu[header] := pdu[header] + length;
      } else if length < 269 {
        pdu[header] := pdu[header] + 0x0D;
        pdu[position] := length - 13;
      } else {
        pdu[header] := pdu[header] + 0x0E;
        var networkOrder := Htons(order, length - 269);
        pdu[position] := networkOrder / 0x100;
        pdu[position + 1] := networkOrder % 0x100;
      }
    }

    /** memcpy into the buffer. */
    method CopyInto(pos: nat, bytes: seq<byte>)
      requires pos + |bytes| <= pdu.Length
      modifies pdu
      ensures pdu[..] == Put(old(pdu[..]), pos, bytes)
    {
      for i := 0 to |bytes|
        invariant forall j :: 0 <= j < pdu.Length ==>
                    pdu[j] == if pos <= j < pos + i then bytes[j - pos] else old(pdu[j])
      {
        pdu[pos + i] := bytes[i];
      }
    }

    // ----- Moving bytes

    method ShiftPDUUp(shiftOffset: nat, shiftAmount: nat)
      requires 0 <= pduLength - shiftOffset - shiftAmount && pduLength <= pdu.Length
      modifies pdu
      ensures var start := pduLength - shiftAmount;
              pdu[..] == Put(old(pdu[..]), start, old(pdu[..])[start - shiftOffset..pduLength - shiftOffset])
    {
      hide Put;
      ghost var s := pdu[..];
      CopyBackwards(pduLength - 1, pduLength - 1 - shiftOffset, shiftAmount);
      MovedIsPut(s, pdu[..], pduLength - shiftAmount, shiftAmount, shiftOffset);
    }

    /** Its loop, which starts at the last byte. */
    method CopyBackwards(last: int, lastSource: int, shiftAmount: nat)
      requires shiftAmount - 1 <= lastSource <= last < pdu.Length
      modifies pdu
      ensures forall i :: 0 <= i <= last - shiftAmount || last < i < pdu.Length ==> pdu[i] == old(pdu[i])
      ensures forall i :: last - shiftAmount < i <= last ==> pdu[i] == old(pdu[i - (last - lastSource)])
    {
      var amount, dest, src := shiftAmount, last, lastSource;
      while amount != 0
        invariant 0 <= amount <= shiftAmount
        invariant dest == last - (shiftAmount - amount) && src == dest - (last - lastSource)
        invariant forall i :: 0 <= i <= dest || last < i < pdu.Length ==> pdu[i] == old(pdu[i])
        invariant forall i :: dest < i <= last ==> pdu[i] == old(pdu[i - (last - lastSource)])
      {
        pdu[dest] := pdu[src];
        dest := dest - 1;
        src := src - 1;
        amount := amount - 1;
      }
    }

    method ShiftPDUDown(startLocation: nat, shiftOffset: nat, shiftAmount: nat)
      requires startLocation + shiftOffset + shiftAmount <= pdu.Length
      modifies pdu
      ensures var source := startLocation + shiftOffset;
              pdu[..] == Put(old(pdu[..]), startLocation, old(pdu[..])[source..source + shiftAmount])
    {
      hide Put;
      ghost var s := pdu[..];
      CopyForwards(startLocation, startLocation + shiftOffset, shiftAmount);
      MovedIsPut(s, pdu[..], startLocation, shiftAmount, 0 - shiftOffset);
    }

    /** Its loop, which starts at the first byte. */
    method CopyForwards(first: nat, firstSource: nat, shiftAmount: nat)
      requires first <= firstSource && firstSource + shiftAmount <= pdu.Length
      modifies pdu
      ensures forall i :: 0 <= i < first || first + shiftAmount <= i < pdu.Length ==> pdu[i] == old(pdu[i])
      ensures forall i :: first <= i < first + shiftAmount ==> pdu[i] == old(pdu[i + (firstSource - first)])
    {
      var amount, dest, src := shiftAmount, first, firstSource;
      while amount != 0
        invariant 0 <= amount <= shiftAmount
        invariant dest == first + (shiftAmount - amount) && src == dest + (firstSource - first)
        invariant forall i :: 0 <= i < first || dest <= i < pdu.Length ==> pdu[i] == old(pdu[i])
        invariant forall i :: first <= i < dest ==> pdu[i] == old(pdu[i + (firstSource - first)])
      {
        pdu[dest] := pdu[src];
        dest := dest + 1;
        src := src + 1;
        amount := amount - 1;
      }
    }

    /** The repeated space check: a dynamic PDU is reallocated to exactly its new length, one that lives in an
        outside buffer must fit there. */
    method Reserve(length: nat, ghost keep: nat) returns (ok: bool)
      requires 0 <= bufferLength <= pdu.Length && keep <= pdu.Length && keep <= length
      modifies this`pdu, this`bufferLength
      ensures ok <==> !constructedFromBuffer || length <= bufferLength
      ensures constructedFromBuffer ==> pdu == old(pdu) && bufferLength == old(bufferLength)
      ensures !constructedFromBuffer ==> fresh(pdu) && bufferLength == length == pdu.Length
      ensures keep <= pdu.Length && pdu[..keep] == old(pdu[..keep])
      ensures bufferLength <= pdu.Length
    {
      if !constructedFromBuffer {
        var newMemory := new byte[length];
        forall i | 0 <= i < length && i < pdu.Length {
          newMemory[i] := pdu[i];
        }
        pdu := newMemory;
        bufferLength := length;
        return true;
      }
      return length <= bufferLength;
    }

    /** Everything behind the token. */
    lemma {:induction false} BodyInBuffer()
      requires Layout()
      ensures COAP_HDR_SIZE + |token| + |EncodeOptions(order, 0, options)| <= pduLength
      ensures pdu[COAP_HDR_SIZE + |token|..pduLength] == Body()
      ensures payload == [] ==> pduLength == COAP_HDR_SIZE + |token| + |EncodeOptions(order, 0, options)|
    {
      hide EncodeOptions;
      assert pdu[COAP_HDR_SIZE + |token|..pduLength] == pdu[..pduLength][COAP_HDR_SIZE..][|token|..];
    }

    /** What a walk over the buffer finds at the start of option `k`, or behind the last one. */
    lemma {:induction false} BufferAt(k: nat)
      requires Layout() && k <= |options|
      ensures var pos := COAP_HDR_SIZE + |token| + Start(order, options, k);
              pos <= pduLength && pdu[pos..pduLength] == Body()[Start(order, options, k)..] &&
              (payload == [] ==> (k == |options| <==> pos == pduLength))
    {
      hide EncodeOptions, Start;
      BodyInBuffer();
      StartBounds(order, options, k);
      var base := COAP_HDR_SIZE + |token|;
      assert pdu[base + Start(order, options, k)..pduLength] == pdu[base..pduLength][Start(order, options, k)..];
    }

    /** The position of option `k`, as a walk over the buffer reaches it. */
    ghost function PositionOf(k: nat): nat
      reads this
      requires Chain(0, options) && k <= |options|
    {
      COAP_HDR_SIZE + |token| + Start(order, options, k)
    }

    /** What such a walk reads at option `k`, and where it goes next. */
    lemma {:induction false} ReadAt(k: nat)
      requires Layout() && k < |options|
      ensures var pos, delta, length := PositionOf(k), options[k].number - Last(0, options[..k]), |options[k].value|;
              pos < pduLength && HeaderPresent(pdu[pos..]) && pdu[pos] != PAYLOAD_MARKER &&
              0 <= delta <= MAX16 && length <= MAX16 &&
              GetOptionDelta(pos) == delta && GetOptionValueLength(pos) == length &&
              PositionOf(k + 1) == pos + OptionSize(delta, length) <= pduLength &&
              Last(0, options[..k + 1]) == options[k].number
    {
      hide EncodeOptions, HeaderPresent, Chain, Start, ScannedDelta, ScannedLength;
      BufferAt(k);
      BufferAt(k + 1);
      WalkStep(order, options, k, PayloadPart(payload));
      var pos := PositionOf(k);
      assert pdu[pos..][..pduLength - pos] == pdu[pos..pduLength];
      HeaderPrefix(order, pdu[pos..], pduLength - pos);
    }

    /** The value bytes lie just before the next option. */
    lemma {:induction false} ValueAt(k: nat)
      requires Layout() && k < |options|
      ensures PositionOf(k) <= PositionOf(k + 1) - |options[k].value| <= PositionOf(k + 1) <= pduLength
      ensures pdu[PositionOf(k + 1) - |options[k].value|..PositionOf(k + 1)] == options[k].value
    {
      hide EncodeOptions, HeaderPresent, Chain, Start, ScannedDelta, ScannedLength, OptionSize, PayloadPart;
      ReadAt(k);
      BufferAt(k);
      WalkStep(order, options, k, PayloadPart(payload));
      var pos, size := PositionOf(k), PositionOf(k + 1) - PositionOf(k);
      SliceOfSlice(pdu[..], pos, pduLength, size - |options[k].value|, size);
    }

    // ----- Adding an option

    method FindInsertionPosition(optionNumber: uint16) returns (pos: nat, prev: uint16)
      requires Layout() && Small(options) && StopsAtOption(options, payload, maxAddedOptionNumber, optionNumber)
      ensures if optionNumber >= maxAddedOptionNumber || options == [] then
                pos == pduLength && prev == maxAddedOptionNumber
              else
                var k := InsertIndex(options, optionNumber);
                prev == Last(0, options[..k]) && pos == PositionOf(k)
    {
      hide Encodes, HeaderPresent, Chain, InsertIndex, PositionOf, Small, Last, Extra, GetOptionDelta,
           GetOptionValueLength;
      FirstPosition();
      WalkAt(0);
      StartOf(options);
      if optionNumber >= maxAddedOptionNumber || pduLength == COAP_HDR_SIZE + pdu[0] % 16 {
        return pduLength, maxAddedOptionNumber;
      }
      var optionPos: nat := COAP_HDR_SIZE + pdu[0] % 16;
      var current: uint16 := 0;
      prev := 0;
      ghost var k := 0;
      while optionPos < pduLength && pdu[optionPos] != 0xFF
        invariant 0 <= k <= |options|
        invariant optionPos == PositionOf(k) <= pduLength
        invariant current == prev == Last(0, options[..k])
        invariant forall i :: 0 <= i < k ==> options[i].number <= optionNumber
        decreases pduLength - optionPos
      {
        WalkAt(k);
        ReadAt(k);
        NumberFits(options, k);
        var delta := GetOptionDelta(optionPos);
        current := (current + delta) % 0x1_0000;
        var valueLength := GetOptionValueLength(optionPos);
        if current > optionNumber {
          InsertIndexIs(options, optionNumber, k);
          return optionPos, prev;
        }
        prev := current;
        optionPos := optionPos + Extra(delta) + Extra(valueLength) + valueLength + 1;
        k := k + 1;
      }
      WalkAt(k);
      InsertIndexIs(options, optionNumber, k);
      return optionPos, prev;
    }

    /** A walk over the options is behind the last one exactly when it stands at the end, or at the marker. */
    lemma {:induction false} WalkAt(k: nat)
      requires Layout() && k <= |options|
      ensures PositionOf(k) <= pduLength
      ensures k == |options| <==> PositionOf(k) == pduLength || pdu[PositionOf(k)] == PAYLOAD_MARKER
      ensures k == |options| ==> (PositionOf(k) == pduLength <==> payload == [])
    {
      hide Encodes, HeaderPresent, Chain, PositionOf, GetOptionDelta, GetOptionValueLength, OptionSize, Last;
      if k < |options| {
        ReadAt(k);
      } else {
        AtMarker();
      }
    }

    lemma {:induction false} AtMarker()
      requires Layout()
      ensures PositionOf(|options|) <= pduLength && (PositionOf(|options|) == pduLength <==> payload == [])
      ensures payload != [] ==> pdu[PositionOf(|options|)] == PAYLOAD_MARKER
    {
      hide EncodeOptions, Start, Chain, Encodes, PayloadPart;
      FirstPosition();
      BodyInBuffer();
      StartBounds(order, options, |options|);
      PartOfPayload(payload);
      var start := COAP_HDR_SIZE + |token|;
      var body := pdu[start..pduLength];
      assert PositionOf(|options|) == start + |EncodeOptions(order, 0, options)|;
      assert |body| == |EncodeOptions(order, 0, options)| + |PayloadPart(payload)|;
      assert payload != [] ==> body[|EncodeOptions(order, 0, options)|] == PayloadPart(payload)[0];
    }

    /** The append half of adding an option: no other byte moves. */
    method AppendOption(optionDelta: uint16, optionValue: seq<byte>) returns (r: int)
      requires 0 <= pduLength <= bufferLength <= pdu.Length && OptionSize(optionDelta, |optionValue|) <= MAX16
      modifies this`pdu, this`pduLength, this`bufferLength, this`numOptions, pdu
      ensures pduLength <= bufferLength <= pdu.Length
      ensures pdu == old(pdu) || fresh(pdu)
      ensures constructedFromBuffer ==> pdu == old(pdu) && bufferLength == old(bufferLength)
      ensures numOptions == old(numOptions) + (1 - r)
      ensures var length := old(pduLength) + OptionSize(optionDelta, |optionValue|);
              if constructedFromBuffer && length > bufferLength then
                r == 1 && pduLength == old(pduLength) && pdu[..pduLength] == old(pdu[..pduLength])
              else
                r == 0 && pduLength == length &&
                pdu[..pduLength] == old(pdu[..pduLength]) + EncodeOption(order, optionDelta, optionValue)
    {
      hide EncodeOption, OptionSize, Extra, Put;
      var insertionPosition := pduLength;
      pduLength := pduLength + OptionSize(optionDelta, |optionValue|);
      var ok := Reserve(pduLength, insertionPosition);
      if !ok {
        pduLength := insertionPosition;
        return 1;
      }
      ghost var before := pdu[..];
      InsertOption(insertionPosition, optionDelta, optionValue);
      PutPrefix(before, insertionPosition, EncodeOption(order, optionDelta, optionValue), pduLength);
      numOptions := numOptions + 1;
      return 0;
    }

    /** Shifts everything from `pos` on up by `hole`, and then the byte at `pos` alone by `excess` more. */
    method ShiftOptions(pos: nat, hole: nat, excess: nat)
      requires pos + hole + excess < pduLength <= pdu.Length
      modifies pdu
      ensures pdu[..] == Put(old(pdu[..]), pos + hole,
                             old(pdu[..])[pos..pduLength - hole])[pos + hole + excess := old(pdu[pos])]
    {
      hide Put;
      ghost var s := pdu[..];
      ShiftPDUUp(hole, pduLength - (pos + hole));
      ghost var moved := pdu[..];
      assert moved == Put(s, pos + hole, s[pos..pduLength - hole]);
      ShiftedHeader(s, pos, pduLength - hole, hole);
      pdu[pos + hole + excess] := pdu[pos + hole];
    }

    /** Makes room in front of the option at `pos`: shift everything up by `hole`, move the header byte of the displaced
        option to `start`, against its shorter delta, and write that delta. */
    method OpenHole(pos: nat, hole: nat, start: nat, newDelta: uint16) returns (ghost moved: seq<byte>)
      requires pos + hole <= start && start + Extra(newDelta) < pduLength <= pdu.Length
      modifies pdu
      ensures moved == Put(old(pdu[..]), pos + hole, old(pdu[..])[pos..pduLength - hole])[start := old(pdu[pos])]
      ensures pdu[..] == Put(moved, start, [16 * Nibble(newDelta) + old(pdu[pos]) % 16] + Extension(order, newDelta))
    {
      hide Extension, Nibble, Extra, Put;
      ghost var s := pdu[..];
      ShiftOptions(pos, hole, start - pos - hole);
      moved := pdu[..];
      assert moved[start] == s[pos] == pdu[start];
      SetOptionDelta(start, newDelta);
    }

    /** Makes room in front of an option, and writes the new option there. */
    method DisplaceAndInsert(pos: nat, hole: nat, oldDelta: uint16, newDelta: uint16, delta: uint16, value: seq<byte>)
      requires |value| <= MAX16 && pos + hole + 1 + Extra(oldDelta) <= pduLength <= pdu.Length
      requires hole == OptionSize(delta, |value|) + Extra(newDelta) - Extra(oldDelta) &&
               Extra(newDelta) <= Extra(oldDelta)
      requires delta + newDelta == oldDelta
      modifies pdu
      ensures pdu[..pduLength] == Displaced(order, old(pdu[..pduLength - hole]), pos, oldDelta, newDelta, value)
    {
      hide EncodeOption, Extension, Nibble, Extra, OptionSize, Put, Displaced;
      ghost var s := pdu[..];
      assert s[..pduLength - hole] == pdu[..pduLength - hole];
      var start := pos + hole + Extra(oldDelta) - Extra(newDelta);
      ghost var moved := OpenHole(pos, hole, start, newDelta);
      ghost var shortened := pdu[..];
      InsertOption(pos, delta, value);
      DisplacedBytes(order, s, moved, shortened, pdu[..], pduLength - hole, pos, hole, oldDelta, newDelta, value);
    }

    lemma {:induction false} ShiftedHeader(s: seq<byte>, pos: nat, n: nat, hole: nat)
      requires pos < n && n + hole <= |s|
      ensures Put(s, pos + hole, s[pos..n])[pos + hole] == s[pos]
    {
    }

    /** The middle half of adding an option: the option at `insertionPosition` is displaced. */
    method InsertBefore(insertionPosition: nat, prevOptionNumber: uint16, insertedOptionNumber: uint16,
                        optionValue: seq<byte>) returns (r: int)
      requires insertionPosition <= pduLength <= bufferLength <= pdu.Length
      requires HeaderPresent(pdu[insertionPosition..])
      requires prevOptionNumber <= insertedOptionNumber <= prevOptionNumber + GetOptionDelta(insertionPosition)
      requires OptionSize(insertedOptionNumber - prevOptionNumber, |optionValue|) <= MAX16
      requires insertionPosition + 1 + Extra(GetOptionDelta(insertionPosition)) <= pduLength
      modifies this`pdu, this`pduLength, this`bufferLength, pdu
      ensures pduLength <= bufferLength <= pdu.Length
      ensures pdu == old(pdu) || fresh(pdu)
      ensures constructedFromBuffer ==> pdu == old(pdu) && bufferLength == old(bufferLength)
      ensures var delta := insertedOptionNumber - prevOptionNumber;
              var oldDelta := old(GetOptionDelta(insertionPosition));
              var newDelta: uint16 := oldDelta - delta;
              var length := old(pduLength) + OptionSize(delta, |optionValue|) + Extra(newDelta) - Extra(oldDelta);
              if constructedFromBuffer && length > bufferLength then
                r == 1 && pduLength == old(pduLength) && pdu[..pduLength] == old(pdu[..pduLength])
              else
                r == 0 && pduLength == length &&
                pdu[..pduLength]
                  == Displaced(order, old(pdu[..pduLength]), insertionPosition, oldDelta, newDelta, optionValue)
    {
      hide Displaced, HeaderPresent, ScannedDelta;
      var optionDelta := insertedOptionNumber - prevOptionNumber;
      var optionLength: uint16 := OptionSize(optionDelta, |optionValue|);
      var nextOptionDelta := GetOptionDelta(insertionPosition);
      var nextOptionNumber := prevOptionNumber + nextOptionDelta;
      var newNextOptionDelta: uint16 := nextOptionNumber - insertedOptionNumber;
      var optionDeltaAdjustment := Extra(newNextOptionDelta) - Extra(nextOptionDelta);
      SplitDelta(optionDelta, newNextOptionDelta);
      var mallocLength: nat := optionLength + optionDeltaAdjustment;
      var oldPDULength := pduLength;
      pduLength := pduLength + mallocLength;
      var ok := Reserve(pduLength, oldPDULength);
      if !ok {
        pduLength := oldPDULength;
        return 1;
      }
      assert pdu[..oldPDULength] == old(pdu[..pduLength]);
      DisplaceAndInsert(insertionPosition, mallocLength, nextOptionDelta, newNextOptionDelta, optionDelta, optionValue);
      return 0;
    }

    /** The delta in the two cases of an addition. */
    lemma {:induction false} DeltaToWrite(number: uint16)
      requires Small(options)
      ensures Appends(options, maxAddedOptionNumber, number) ==>
                DeltaOf(options, maxAddedOptionNumber, number)
                  == (number - AppendBase(options, maxAddedOptionNumber, number)) % 0x1_0000
      ensures !Appends(options, maxAddedOptionNumber, number) ==>
                DeltaOf(options, maxAddedOptionNumber, number)
                  == number - Last(0, options[..InsertIndex(options, number)])
    {
      hide Small, Last, InsertIndex;
      AroundInsertion(options, CoapOption(number, []));
    }

    /** Adding an option, as far as the bytes go. */
    method EditForOption(insertedOptionNumber: uint16, optionValue: seq<byte>) returns (r: int)
      requires Layout() && Small(options)
      requires StopsAtOption(options, payload, maxAddedOptionNumber, insertedOptionNumber)
      requires OptionSize(DeltaOf(options, maxAddedOptionNumber, insertedOptionNumber), |optionValue|) <= MAX16
      modifies this`pdu, this`pduLength, this`bufferLength, this`numOptions, this`maxAddedOptionNumber, pdu
      ensures pduLength <= bufferLength <= pdu.Length
      ensures pdu == old(pdu) || fresh(pdu)
      ensures constructedFromBuffer ==> pdu == old(pdu) && bufferLength == old(bufferLength)
      ensures var after := old(Edited(order, pdu[..pduLength], token, options, payload, maxAddedOptionNumber,
                                      CoapOption(insertedOptionNumber, optionValue)));
              if constructedFromBuffer && |after| > bufferLength then
                r == 1 && pduLength == old(pduLength) && pdu[..pduLength] == old(pdu[..pduLength])
              else
                r == 0 && pduLength == |after| && pdu[..pduLength] == after
      ensures var appended := Appends(options, old(maxAddedOptionNumber), insertedOptionNumber);
              maxAddedOptionNumber == (if appended then insertedOptionNumber else old(maxAddedOptionNumber)) &&
              numOptions == old(numOptions) + (if appended && r == 0 then 1 else 0)
    {
      hide Encodes, EncodeOption, Displaced, InsertIndex, Start, OptionSize, HeaderPresent, ScannedDelta,
           ScannedLength, Chain, DeltaOf, Extra;
      StartOf(options);
      ghost var option := CoapOption(insertedOptionNumber, optionValue);
      ghost var after := Edited(order, pdu[..pduLength], token, options, payload, maxAddedOptionNumber, option);
      DeltaToWrite(insertedOptionNumber);
      var insertionPosition, prevOptionNumber := FindInsertionPosition(insertedOptionNumber);
      WalkAt(InsertIndex(options, insertedOptionNumber));
      if insertionPosition == pduLength {
        assert options[..|options|] == options;
        assert after == pdu[..pduLength]
                        + EncodeOption(order, (insertedOptionNumber - prevOptionNumber) % 0x1_0000, optionValue);
        maxAddedOptionNumber := insertedOptionNumber;
        r := AppendOption((insertedOptionNumber - prevOptionNumber) % 0x1_0000, optionValue);
      } else {
        r := EditInFront(insertionPosition, prevOptionNumber, option, insertedOptionNumber, optionValue);
      }
    }

    /** The same for an option in front of another one. */
    method EditInFront(insertionPosition: nat, prevOptionNumber: uint16, ghost option: CoapOption,
                       insertedOptionNumber: uint16, optionValue: seq<byte>) returns (r: int)
      requires Layout() && Small(options) && option == CoapOption(insertedOptionNumber, optionValue)
      requires !Appends(options, maxAddedOptionNumber, insertedOptionNumber)
      requires Chain(0, options) && insertionPosition == PositionOf(InsertIndex(options, insertedOptionNumber))
      requires prevOptionNumber == Last(0, options[..InsertIndex(options, insertedOptionNumber)])
      requires prevOptionNumber <= insertedOptionNumber
      requires OptionSize(insertedOptionNumber - prevOptionNumber, |optionValue|) <= MAX16
      modifies this`pdu, this`pduLength, this`bufferLength, pdu
      ensures pduLength <= bufferLength <= pdu.Length
      ensures pdu == old(pdu) || fresh(pdu)
      ensures constructedFromBuffer ==> pdu == old(pdu) && bufferLength == old(bufferLength)
      ensures var after := old(Edited(order, pdu[..pduLength], token, options, payload, maxAddedOptionNumber, option));
              if constructedFromBuffer && |after| > bufferLength then
                r == 1 && pduLength == old(pduLength) && pdu[..pduLength] == old(pdu[..pduLength])
              else
                r == 0 && pduLength == |after| && pdu[..pduLength] == after
    {
      hide Encodes, EncodeOption, Displaced, InsertIndex, Start, OptionSize, HeaderPresent, ScannedDelta,
           ScannedLength, Chain, Extra, GetOptionDelta, GetOptionValueLength, Last, Appends;
      InFront(options, maxAddedOptionNumber, insertedOptionNumber);
      EncodesInserted(order, pdu[..pduLength], token, options, payload, option);
      ReadAt(InsertIndex(options, insertedOptionNumber));
      r := InsertBefore(insertionPosition, prevOptionNumber, insertedOptionNumber, optionValue);
    }

    static lemma {:induction false} InFront(opts: seq<CoapOption>, hint: nat, number: nat)
      requires !Appends(opts, hint, number)
      ensures InsertIndex(opts, number) < |opts| && number < opts[InsertIndex(opts, number)].number
    {
    }

    /** With a payload, an option that goes behind all others is written behind the payload and becomes part of it. One
        that goes in front of another option is inserted there, but the payload pointer does not follow. */
    method AddOption(insertedOptionNumber: uint16, optionValue: seq<byte>) returns (r: int)
      requires Valid() && Small(options)
      requires StopsAtOption(options, payload, maxAddedOptionNumber, insertedOptionNumber)
      requires OptionSize(DeltaOf(options, maxAddedOptionNumber, insertedOptionNumber), |optionValue|) <= MAX16
      modifies this`pdu, this`pduLength, this`bufferLength, this`numOptions, this`maxAddedOptionNumber, this`options,
               this`payload, pdu
      ensures Layout() && (Valid() <==> old(payload) == [] || pduLength == old(pduLength))
      ensures pdu == old(pdu) || fresh(pdu)
      ensures pdu[..COAP_HDR_SIZE] == old(pdu[..COAP_HDR_SIZE])
      ensures constructedFromBuffer ==> pdu == old(pdu) && bufferLength == old(bufferLength)
      ensures var length := LengthAfter(old(pduLength), old(options), old(payload), old(maxAddedOptionNumber),
                                        CoapOption(insertedOptionNumber, optionValue));
              if constructedFromBuffer && length > bufferLength then
                r == 1 && pduLength == old(pduLength) && pdu[..pduLength] == old(pdu[..pduLength])
              else
                r == 0 && pduLength == length
      ensures var option := CoapOption(insertedOptionNumber, optionValue);
              var joins := JoinsPayload(old(options), old(payload), old(maxAddedOptionNumber), insertedOptionNumber);
              options == (if r == 1 || joins then old(options)
                          else AddOutcome(old(options), old(maxAddedOptionNumber), option)) &&
              payload == old(payload) + if r == 1 || !joins then []
                                        else EncodeOption(order, (insertedOptionNumber - old(maxAddedOptionNumber))
                                                                 % 0x1_0000, optionValue)
      ensures var option := CoapOption(insertedOptionNumber, optionValue);
              r == 0 ==> (options == Insert(old(options), option) && payload == old(payload) <==>
                          HintServes(old(options), old(maxAddedOptionNumber), insertedOptionNumber) &&
                          (old(payload) == [] || insertedOptionNumber < old(maxAddedOptionNumber)))
      ensures var appended := Appends(old(options), old(maxAddedOptionNumber), insertedOptionNumber);
              maxAddedOptionNumber == (if appended then insertedOptionNumber else old(maxAddedOptionNumber)) &&
              numOptions == old(numOptions) + (if appended && r == 0 then 1 else 0)
    {
      hide HintServes, Insert, Encodes, Edited, IsOutcome, AddOutcome, OutcomeLength, Appends, Small, StopsAtOption,
           EncodeOption;
      ghost var option, hint, before := CoapOption(insertedOptionNumber, optionValue), maxAddedOptionNumber,
        pdu[..pduLength];
      ghost var after := Edited(order, before, token, options, payload, hint, option);
      EditedIsOutcome(order, before, token, options, payload, hint, option);
      OutcomeOf(order, before, after, token, options, payload, hint, option);
      AddedAsMeantIff(options, payload, hint, option);
      r := EditForOption(insertedOptionNumber, optionValue);
      assert pdu[..COAP_HDR_SIZE] == pdu[..pduLength][..COAP_HDR_SIZE] == before[..COAP_HDR_SIZE];
      if r == 0 {
        if JoinsPayload(options, payload, hint, insertedOptionNumber) {
          payload := payload + EncodeOption(order, (insertedOptionNumber - hint) % 0x1_0000, optionValue);
        } else {
          options := AddOutcome(options, hint, option);
        }
      }
    }

    /** The length of a message after an option is added to it. */
    ghost function LengthAfter(length: int, opts: seq<CoapOption>, payload: seq<byte>, hint: uint16,
                               option: CoapOption): int
      reads this`token
      requires Small(opts) && option.number <= MAX16 && |option.value| <= MAX16
    {
      if JoinsPayload(opts, payload, hint, option.number) then
        length + OptionSize((option.number - hint) % 0x1_0000, |option.value|)
      else
        COAP_HDR_SIZE + |token| + OutcomeLength(order, opts, hint, option) + |PayloadPart(payload)|
    }

    // ----- The token

    /** Fails silently on a length above 8, as its callers ignore the result. */
    method SetTokenLength(tokenLength: nat)
      requires pdu.Length > 0
      modifies pdu
      ensures pdu[..] == old(pdu[..])[0 := WithTokenLength(old(pdu[0]), tokenLength)]
    {
      if tokenLength > 8 {
        return;
      }
      pdu[0] := pdu[0] - pdu[0] % 16 + tokenLength;
    }

    /** The new token is longer: make room, shift everything behind the token up, then write the token. */
    method GrowToken(newToken: seq<byte>, oldTokenLength: nat, oldPDULength: nat) returns (r: int)
      requires oldTokenLength < |newToken| && oldPDULength <= bufferLength <= pdu.Length && oldPDULength <= pduLength
      requires (constructedFromBuffer && pduLength > bufferLength) ||
               (COAP_HDR_SIZE + oldTokenLength <= oldPDULength &&
                pduLength == oldPDULength - oldTokenLength + |newToken|)
      modifies this`pdu, this`pduLength, this`bufferLength, pdu
      ensures pdu == old(pdu) || fresh(pdu)
      ensures constructedFromBuffer ==> pdu == old(pdu) && bufferLength == old(bufferLength)
      ensures 0 <= pduLength <= bufferLength <= pdu.Length
      ensures if constructedFromBuffer && old(pduLength) > bufferLength then
                r == 1 && pduLength == oldPDULength && pdu[..pduLength] == old(pdu[..oldPDULength])
              else
                r == 0 && pdu[..pduLength] == Retokened(old(pdu[..oldPDULength]), oldTokenLength, newToken)
    {
      hide Put, Retokened, WithTokenLength;
      ghost var before := pdu[..oldPDULength];
      var ok := Reserve(pduLength, oldPDULength);
      if !ok {
        pduLength := oldPDULength;
        return 1;
      }
      ghost var s := pdu[..];
      assert s[..oldPDULength] == before;
      var shiftOffset := pduLength - oldPDULength;
      var shiftAmount := pduLength - |newToken| - COAP_HDR_SIZE;
      ShiftPDUUp(shiftOffset, shiftAmount);
      CopyInto(COAP_HDR_SIZE, newToken);
      GrownToken(s, oldPDULength, oldTokenLength, newToken);
      SetTokenLength(|newToken|);
      return 0;
    }

    /** The new token is shorter: write it over the old one, shift everything behind it down, then give back room. */
    method ShrinkToken(newToken: seq<byte>, oldTokenLength: nat, oldPDULength: nat)
      requires |newToken| < oldTokenLength &&
               COAP_HDR_SIZE + oldTokenLength <= oldPDULength <= bufferLength <= pdu.Length
      requires pduLength == oldPDULength - oldTokenLength + |newToken|
      modifies this`pdu, this`bufferLength, pdu
      ensures pdu == old(pdu) || fresh(pdu)
      ensures constructedFromBuffer ==> pdu == old(pdu) && bufferLength == old(bufferLength)
      ensures 0 <= pduLength <= bufferLength <= pdu.Length
      ensures pdu[..pduLength] == Retokened(old(pdu[..oldPDULength]), oldTokenLength, newToken)
    {
      hide Retokened, WithTokenLength;
      MoveDown(newToken, oldTokenLength, oldPDULength);
      ghost var after := pdu[..pduLength];
      assert after[0] == pdu[0];
      if !constructedFromBuffer {
        var ok := Reserve(pduLength, pduLength);
      }
      assert pdu[0] == pdu[..pduLength][0];
      SetTokenLength(|newToken|);
      assert pdu[..pduLength] == after[0 := WithTokenLength(after[0], |newToken|)];
    }

    method MoveDown(newToken: seq<byte>, oldTokenLength: nat, oldPDULength: nat)
      requires |newToken| < oldTokenLength && COAP_HDR_SIZE + oldTokenLength <= oldPDULength <= pdu.Length
      requires pduLength == oldPDULength - oldTokenLength + |newToken|
      modifies pdu
      ensures pdu[0] == old(pdu[0])
      ensures pdu[..pduLength][0 := WithTokenLength(pdu[0], |newToken|)]
           == Retokened(old(pdu[..oldPDULength]), oldTokenLength, newToken)
    {
      hide Put, Retokened, WithTokenLength;
      ghost var s := pdu[..];
      assert s[..oldPDULength] == pdu[..oldPDULength];
      CopyInto(COAP_HDR_SIZE, newToken);
      var startLocation := COAP_HDR_SIZE + |newToken|;
      var shiftOffset := oldPDULength - pduLength;
      var shiftAmount := oldPDULength - oldTokenLength - COAP_HDR_SIZE;
      ShiftPDUDown(startLocation, shiftOffset, shiftAmount);
      ShrunkToken(s, oldPDULength, oldTokenLength, newToken);
    }

    /** The message is in an outside buffer that is too small for the longer token. */
    ghost predicate NoRoomFor(newToken: seq<byte>)
      reads this
    {
      constructedFromBuffer && |newToken| > |token| && pduLength - |token| + |newToken| > bufferLength
    }

    /** A longer or shorter token moves everything behind it. When there is no room for it, the length of the message is
        put back, cut to eight bits: messages above 255 bytes lose their end. */
    method SetToken(newToken: seq<byte>) returns (r: int)
      requires Valid() && |newToken| <= 0xFF
      requires |newToken| > 0 && |newToken| != |token| && !NoRoomFor(newToken) ==>
                 LowestSource(pduLength, |token|, |newToken|) >= 0
      modifies this`pdu, this`pduLength, this`bufferLength, this`token, pdu
      ensures pdu == old(pdu) || fresh(pdu)
      ensures constructedFromBuffer ==> pdu == old(pdu) && bufferLength == old(bufferLength)
      ensures 0 <= pduLength <= bufferLength <= pdu.Length
      ensures if |newToken| == 0 then
                r == 1 && token == old(token) && pduLength == old(pduLength) &&
                  pdu[..pduLength] == old(pdu[..pduLength])
              else if old(NoRoomFor(newToken)) then
                r == 1 && token == old(token) && pduLength == old(pduLength) % 0x100 &&
                pdu[..pduLength] == old(pdu[..pduLength % 0x100])
              else
                r == 0 && token == newToken &&
                  pdu[..pduLength] == Retokened(old(pdu[..pduLength]), old(|token|), newToken)
      ensures Layout() <==> if r == 1 then pduLength == old(pduLength) else |newToken| <= 8
    {
      hide Encodes, Retokened, Put;
      if |newToken| == 0 {
        return 1;
      }
      TokenInHeader();
      ghost var before := pdu[..pduLength];
      EncodesRetokened(order, before, token, newToken, options, payload);
      var oldTokenLength := pdu[0] % 16;
      if |newToken| == oldTokenLength {
        ghost var s := pdu[..];
        CopyInto(COAP_HDR_SIZE, newToken);
        SameLengthToken(s, pduLength, newToken);
        token := newToken;
        return 0;
      }
      LowestSourceIff(pduLength, |token|, |newToken|);
      CutDoesNotEncode(order, before, pduLength % 0x100, token, options, payload);
      assert before[..pduLength % 0x100] == pdu[..pduLength % 0x100];
      var oldPDULength := pduLength % 0x100;
      pduLength := pduLength - oldTokenLength + |newToken|;
      if pduLength > oldPDULength {
        r := GrowToken(newToken, oldTokenLength, oldPDULength);
      } else {
        ShrinkToken(newToken, oldTokenLength, oldPDULength);
        r := 0;
      }
      if r == 0 {
        token := newToken;
      }
    }

    lemma {:induction false} TokenInHeader()
      requires Layout()
      ensures COAP_HDR_SIZE + |token| <= pduLength && pdu[0] % 16 == |token| <= 8
    {
    }

    // ----- The payload

    /** Returns the payload pointer, or NULL. Resizing an existing payload keeps its marker, and also the pointer: where
        the buffer is reallocated, that points into the released one. */
    method MallocPayload(len: nat) returns (p: int)
      requires Valid()
      modifies this`pdu, this`pduLength, this`bufferLength, this`payloadPointer, this`payloadBuffer,
               this`payloadLength, this`payload, pdu
      ensures Valid()
      ensures pdu == old(pdu) || fresh(pdu)
      ensures constructedFromBuffer ==> pdu == old(pdu) && bufferLength == old(bufferLength)
      ensures var newLength := old(pduLength - payloadLength) + len + (if old(payload) == [] then 1 else 0);
              if len == 0 || (len != old(payloadLength) && constructedFromBuffer && newLength > bufferLength) then
                p == NULL && payload == old(payload) && pduLength == old(pduLength) &&
                payloadBuffer == old(payloadBuffer) && pdu[..pduLength] == old(pdu[..pduLength])
              else
                p == payloadPointer == pduLength - len && |payload| == len && COAP_HDR_SIZE < p &&
                pduLength == newLength && (PayloadInside() <==> old(KeepsPointer(len))) &&
                payload[..Kept(old(payload), len)] == old(payload)[..Kept(old(payload), len)] &&
                pdu[..p - 1] == old(pdu[..pduLength])[..p - 1]
    {
      hide Encodes;
      PayloadInBuffer();
      if len == 0 {
        return NULL;
      }
      if len == payloadLength {
        return payloadPointer;
      }
      var markerSpace := if payloadLength != 0 then 0 else 1;
      var payloadSpace := if payloadLength != 0 then len - payloadLength else len;
      var newLen := pduLength + payloadSpace + markerSpace;
      ghost var before := pdu[..pduLength];
      var ok := Reserve(newLen, Kept(before, newLen));
      if !ok {
        return NULL;
      }
      PlacePayload(len, newLen, before);
      return payloadPointer;
    }

    lemma {:induction false} PayloadInBuffer()
      requires Valid()
      ensures COAP_HDR_SIZE <= pduLength && (payload != [] ==> COAP_HDR_SIZE < payloadPointer)
    {
      if payload != [] {
        StripPayload(order, pdu[..pduLength], token, options, payload);
      }
    }

    /** There is room for the new length: a first payload gets a marker, another one only changes its length. */
    method PlacePayload(len: nat, newLen: nat, ghost before: seq<byte>)
      requires newLen <= bufferLength <= pdu.Length && 0 < len != payloadLength == |payload|
      requires COAP_HDR_SIZE <= |before| == pduLength && Encodes(order, before, token, options, payload)
      requires newLen == pduLength - payloadLength + len + (if payload == [] then 1 else 0)
      requires payloadPointer == if payload == [] then NULL else pduLength - payloadLength
      requires payload != [] ==> COAP_HDR_SIZE < payloadPointer
      requires pdu[..Kept(before, newLen)] == before[..Kept(before, newLen)]
      modifies this`pduLength, this`payloadPointer, this`payloadBuffer, this`payloadLength, this`payload, pdu
      ensures Valid() && pduLength == newLen && payloadLength == len
      ensures payloadBuffer == if old(payload) == [] then pdu else old(payloadBuffer)
      ensures payload[..Kept(old(payload), len)] == old(payload)[..Kept(old(payload), len)]
      ensures COAP_HDR_SIZE < payloadPointer && pdu[..payloadPointer - 1] == before[..payloadPointer - 1]
    {
      hide Encodes;
      if payloadPointer == NULL {
        pdu[pduLength] := 0xFF;
        payloadPointer, payloadBuffer := pduLength + 1, pdu;
        payload := pdu[pduLength + 1..newLen];
        EncodesPayload(order, before, token, options, payload);
        assert pdu[..newLen] == before + [PAYLOAD_MARKER] + payload;
      } else {
        ghost var kept, previous := pduLength - payloadLength, payload;
        payload := pdu[kept..newLen];
        EncodesNewPayload(order, before, token, options, previous, payload);
        assert pdu[..newLen] == before[..kept] + payload;
        assert pdu[..newLen][..Kept(before, newLen)] == pdu[..Kept(before, newLen)];
        KeptPayload(order, before, pdu[..newLen], token, options, previous);
        assert payload == pdu[..newLen][kept..];
      }
      pduLength := newLen;
      payloadLength := len;
    }

    /** With a pointer into a released buffer the bytes go there: the message grows or shrinks as asked, the result says
        success, and the payload is what the resizing left. */
    method SetPayload(bytes: seq<byte>) returns (r: int)
      requires Valid()
      modifies this`pdu, this`pduLength, this`bufferLength, this`payloadPointer, this`payloadBuffer,
               this`payloadLength, this`payload, pdu
      ensures Valid()
      ensures pdu == old(pdu) || fresh(pdu)
      ensures constructedFromBuffer ==> pdu == old(pdu) && bufferLength == old(bufferLength)
      ensures pdu[..COAP_HDR_SIZE] == old(pdu[..COAP_HDR_SIZE])
      ensures var newLength := old(pduLength - payloadLength) + |bytes| + (if old(payload) == [] then 1 else 0);
              r == (if |bytes| == 0 || (|bytes| != old(payloadLength) && constructedFromBuffer &&
                                        newLength > bufferLength)
                    then 1 else 0)
      ensures r == 1 ==> payload == old(payload) && payloadBuffer == old(payloadBuffer)
      ensures r == 0 ==> |payload| == |bytes| && (PayloadInside() <==> old(KeepsPointer(|bytes|)))
      ensures r == 0 && PayloadInside() ==> payload == bytes
      ensures r == 0 && !PayloadInside() ==>
                payload[..Kept(old(payload), |bytes|)] == old(payload)[..Kept(old(payload), |bytes|)]
    {
      hide Encodes;
      HeaderInBuffer();
      var p := MallocPayload(|bytes|);
      HeaderInBuffer();
      assert p != NULL ==> pdu[..COAP_HDR_SIZE] == pdu[..p - 1][..COAP_HDR_SIZE];
      if p == NULL {
        assert pdu[..COAP_HDR_SIZE] == pdu[..pduLength][..COAP_HDR_SIZE];
        return 1;
      }
      if payloadBuffer == pdu {
        WritePayload(p, bytes);
      }
      return 0;
    }

    /** memcpy to a payload pointer into the buffer. */
    method WritePayload(p: nat, bytes: seq<byte>)
      requires Valid() && bytes != [] && |bytes| == |payload| && p == payloadPointer && COAP_HDR_SIZE < p
      modifies this`payload, pdu
      ensures Valid() && payload == bytes && pdu[..COAP_HDR_SIZE] == old(pdu[..COAP_HDR_SIZE])
    {
      hide Encodes;
      ghost var before := pdu[..pduLength];
      EncodesNewPayload(order, before, token, options, payload, bytes);
      CopyInto(p, bytes);
      payload := bytes;
      assert pdu[..pduLength] == before[..p] + bytes;
      assert pdu[..COAP_HDR_SIZE] == before[..COAP_HDR_SIZE];
    }

    lemma {:induction false} HeaderInBuffer()
      requires Layout()
      ensures COAP_HDR_SIZE <= pduLength
    {
    }

    // ----- Reading a message

    /** The walk over the options reads nothing behind the buffer. */
    ghost predicate WalkStaysInside()
      reads this, pdu
      requires 0 <= pduLength <= pdu.Length
    {
      HeaderAccepted(pdu[..pduLength]) ==>
        StaysInside(order, pdu[COAP_HDR_SIZE + pdu[0] % 16..], pduLength - COAP_HDR_SIZE - pdu[0] % 16)
    }

    /** Two bytes behind the message are enough for that, and none at all when the message is well formed. */
    lemma {:induction false} SlackOrWellFormed()
      requires 0 <= pduLength <= pdu.Length
      ensures pduLength + 2 <= pdu.Length || WellFormed(order, pdu[..pduLength]) ==> WalkStaysInside()
    {
      hide StaysInside, DecodeOptions;
      var s := pdu[..pduLength];
      if HeaderAccepted(s) {
        var start := COAP_HDR_SIZE + s[0] % 16;
        assert pdu[start..][..pduLength - start] == OptionArea(s);
        if pduLength + 2 <= pdu.Length {
          SlackSuffices(order, pdu[start..], pduLength - start);
        } else if WellFormed(order, s) {
          DecodableStaysInside(order, 0, pdu[start..], pduLength - start);
        }
      }
    }

    ghost function Verdict(): Verdict
      reads this, pdu
      requires 0 <= pduLength <= pdu.Length && HeaderAccepted(pdu[..pduLength]) && WalkStaysInside()
    {
      Scan(order, pdu[COAP_HDR_SIZE + pdu[0] % 16..], pduLength - COAP_HDR_SIZE - pdu[0] % 16)
    }

    ghost predicate Oversized()
      reads this, pdu
      requires 0 <= pduLength <= pdu.Length && HeaderAccepted(pdu[..pduLength]) && WalkStaysInside()
    {
      MeetsOversizedField(order, pdu[COAP_HDR_SIZE + pdu[0] % 16..], pduLength - COAP_HDR_SIZE - pdu[0] % 16)
    }

    /** The loop of the validator, from the first option on. */
    method ScanOptions(start: nat) returns (r: int)
      requires start <= pduLength <= pdu.Length && StaysInside(order, pdu[start..], pduLength - start)
      modifies this`numOptions, this`payloadPointer, this`payloadBuffer, this`payloadLength
      ensures var verdict := Scan(order, pdu[start..], pduLength - start);
              r == (if verdict.Accepted? then 1 else 0) &&
              (r == 1 ==> numOptions == verdict.count && payloadLength == |verdict.payload|)
      ensures r == 1 && payloadLength > 0 ==> payloadBuffer == pdu
      ensures r == 1 ==> payloadPointer == (if payloadLength > 0 then pduLength - payloadLength
                                            else if start == pduLength then old(payloadPointer) else NULL)
      ensures r == 0 ==> numOptions == old(numOptions) &&
                         ((payloadPointer == old(payloadPointer) && payloadLength == old(payloadLength)) ||
                          (payloadPointer == NULL && payloadLength == 0))
    {
      hide HeaderPresent, HeaderChecked, ScannedDelta, ScannedLength, Scan, StaysInside;
      var optionPos := start;
      ScanEmpty(order, pdu[pduLength..]);
      if optionPos == pduLength {
        numOptions := 0;
        payloadLength := 0;
        return 1;
      }
      var bytesRemaining := pduLength - optionPos;
      var count := 0;
      ghost var verdict := Scan(order, pdu[start..], pduLength - start);
      while true
        invariant start <= optionPos && 0 <= bytesRemaining == pduLength - optionPos && 0 <= count
        invariant start < pduLength && StaysInside(order, pdu[optionPos..], bytesRemaining)
        invariant verdict == Beyond(count, Scan(order, pdu[optionPos..], bytesRemaining))
        invariant numOptions == old(numOptions)
        invariant payloadPointer == old(payloadPointer) && payloadLength == old(payloadLength)
        decreases bytesRemaining
      {
        if bytesRemaining > 0 {
          if pdu[optionPos] == 0xFF {
            ScanPayload(order, pdu[optionPos..], bytesRemaining);
            if bytesRemaining > 1 {
              payloadPointer, payloadBuffer := optionPos + 1, pdu;
              payloadLength := bytesRemaining - 1;
              numOptions := count;
              return 1;
            }
            payloadPointer := NULL;
            payloadLength := 0;
            return 0;
          }
        } else {
          payloadPointer := NULL;
          payloadLength := 0;
          numOptions := count;
          return 1;
        }
        ScanStep(order, pdu[optionPos..], bytesRemaining, count);
        var complete := CheckHeader(optionPos, bytesRemaining);
        if !complete {
          return 0;
        }
        var optionDelta := GetOptionDelta(optionPos);
        var optionValueLength := GetOptionValueLength(optionPos);
        var totalLength := 1 + Extra(optionDelta) + Extra(optionValueLength) + optionValueLength;
        if optionPos + totalLength > pduLength {
          return 0;
        }
        assert pdu[optionPos..][totalLength..] == pdu[optionPos + totalLength..];
        bytesRemaining := bytesRemaining - totalLength;
        optionPos := optionPos + totalLength;
        count := count + 1;
      }
      return 0;
    }

    /** The two tests for the extension bytes of an option header, before any of them is read. */
    method CheckHeader(optionPos: nat, bytesRemaining: nat) returns (complete: bool)
      requires 0 < bytesRemaining && optionPos + bytesRemaining <= pdu.Length
      ensures complete <==> HeaderChecked(pdu[optionPos..], bytesRemaining)
    {
      var upperNibble, lowerNibble := pdu[optionPos] / 16, pdu[optionPos] % 16;
      if upperNibble == 0x0F || lowerNibble == 0x0F {
        return false;
      }
      var headerBytesNeeded := Extra(upperNibble);
      if headerBytesNeeded > bytesRemaining - 1 {
        return false;
      }
      headerBytesNeeded := headerBytesNeeded + Extra(lowerNibble);
      return headerBytesNeeded <= bytesRemaining - 1;
    }

    /** Checks a received message and finds its options and payload. The bytes are not changed. */
    method Validate() returns (r: int)
      requires 0 <= pduLength <= bufferLength <= pdu.Length && WalkStaysInside()
      modifies this`numOptions, this`payloadPointer, this`payloadBuffer, this`payloadLength, this`token, this`options,
               this`payload
      ensures r == (if HeaderAccepted(pdu[..pduLength]) && Verdict().Accepted? then 1 else 0)
      ensures r == 1 ==> numOptions == Verdict().count && payloadLength == |Verdict().payload|
      ensures r == 1 && payloadLength > 0 ==> payloadBuffer == pdu
      ensures r == 1 ==> payloadPointer == (if payloadLength > 0 then pduLength - payloadLength
                                            else if pduLength == COAP_HDR_SIZE + pdu[0] % 16 then old(payloadPointer)
                                            else NULL)
      ensures r == 0 ==> numOptions == old(numOptions) &&
                         ((payloadPointer == old(payloadPointer) && payloadLength == old(payloadLength)) ||
                          (payloadPointer == NULL && payloadLength == 0))
      ensures WellFormed(order, pdu[..pduLength]) <==> r == 1 && !Oversized()
      ensures WellFormed(order, pdu[..pduLength]) ==>
                Layout() && numOptions == |options| && payloadLength == |payload| &&
                PayloadInside() && (old(payloadPointer) == NULL || options != [] || payload != [] ==> Valid())
    {
      hide Scan, DecodeOptions, MeetsOversizedField, Encodes, StaysInside;
      ghost var s := pdu[..pduLength];
      if pduLength < COAP_HDR_SIZE {
        return 0;
      }
      var tokenLength := pdu[0] % 16;
      if tokenLength > 8 || COAP_HDR_SIZE + tokenLength > pduLength || !ValidCode(pdu[1]) {
        return 0;
      }
      ghost var start := COAP_HDR_SIZE + tokenLength;
      assert pdu[start..][..pduLength - start] == OptionArea(s);
      ScanIsDecode(order, 0, pdu[start..], pduLength - start);
      r := ScanOptions(COAP_HDR_SIZE + tokenLength);
      if WellFormed(order, s) {
        var d := DecodeOptions(order, 0, OptionArea(s));
        DecodedIsEncoded(order, s);
        token, options, payload := s[COAP_HDR_SIZE..start], d.options, d.payload;
        TokenInHeader();
        BodyInBuffer();
      }
    }

    /** The list of options that a message gives out: as many as `numOptions` says. */
    method GetOptions() returns (views: seq<OptionView>)
      requires Layout() && 0 <= numOptions <= |options|
      ensures |views| == numOptions
      ensures forall i :: 0 <= i < numOptions ==> Shows(views[i], i)
    {
      hide Encodes, Chain, Small, HeaderPresent, PositionOf, Shows, OptionSize, GetOptionDelta, GetOptionValueLength,
           Last;
      views := [];
      StartOf(options);
      if numOptions == 0 {
        return;
      }
      FirstPosition();
      var optionPos: nat := COAP_HDR_SIZE + pdu[0] % 16;
      var optionNumber: uint16 := 0;
      for i := 0 to numOptions
        invariant |views| == i && optionPos == PositionOf(i)
        invariant optionNumber == Last(0, options[..i]) % 0x1_0000
        invariant forall j :: 0 <= j < i ==> Shows(views[j], j)
      {
        var view := ReadOption(optionPos, optionNumber, i);
        views := views + [view];
        optionNumber, optionPos := view.number, optionPos + view.totalLength;
      }
    }

    /** Reads option `i`, given where it starts and the number before it. */
    method ReadOption(optionPos: nat, previous: uint16, ghost i: nat) returns (view: OptionView)
      requires Layout() && Chain(0, options) && i < |options| && optionPos == PositionOf(i)
      requires previous == Last(0, options[..i]) % 0x1_0000
      ensures Shows(view, i) && view.number == Last(0, options[..i + 1]) % 0x1_0000
      ensures optionPos + view.totalLength == PositionOf(i + 1)
    {
      hide Encodes, Chain, HeaderPresent, PositionOf, Shows, OptionSize, GetOptionDelta, GetOptionValueLength, Last;
      ReadAt(i);
      var optionDelta := GetOptionDelta(optionPos);
      var optionNumber := (previous + optionDelta) % 0x1_0000;
      NextNumber(Last(0, options[..i]), options[i].number);
      var length := GetOptionValueLength(optionPos);
      var totalLength: nat := OptionSize(optionDelta, length);
      view := OptionView(optionDelta, optionNumber, length, totalLength, optionPos, optionPos + totalLength - length);
      ViewShows(view, i);
    }

    static lemma {:induction false} NextNumber(last: nat, number: nat)
      requires last <= number
      ensures (last % 0x1_0000 + (number - last)) % 0x1_0000 == number % 0x1_0000
    {
    }

    lemma {:induction false} FirstPosition()
      requires Layout()
      ensures Chain(0, options) && PositionOf(0) == COAP_HDR_SIZE + |token| && pdu[0] % 16 == |token|
      ensures COAP_HDR_SIZE <= pduLength
    {
      StartBounds(order, options, 0);
    }

    lemma {:induction false} ViewShows(view: OptionView, i: nat)
      requires Layout() && i < |options|
      requires view.number == options[i].number % 0x1_0000 && view.delta == options[i].number - Last(0, options[..i])
      requires view.optionPointer == PositionOf(i) && view.optionPointer + view.totalLength == PositionOf(i + 1)
      requires view.valueLength == |options[i].value| && view.valuePointer + view.valueLength == PositionOf(i + 1)
      ensures Shows(view, i)
    {
      hide Encodes, Chain, HeaderPresent, PositionOf;
      ValueAt(i);
    }

    /** An entry shows option `i`: its number (cut to 16 bits), and where it and its value lie in the buffer. */
    ghost predicate Shows(view: OptionView, i: nat)
      reads this, pdu
      requires Layout() && i < |options|
    {
      view.number == options[i].number % 0x1_0000 && view.delta == options[i].number - Last(0, options[..i]) &&
      view.valueLength == |options[i].value| && view.optionPointer == PositionOf(i) &&
      view.optionPointer + view.totalLength == PositionOf(i + 1) &&
      view.valuePointer + view.valueLength == PositionOf(i + 1) <= pduLength &&
      pdu[view.valuePointer..view.valuePointer + view.valueLength] == options[i].value
    }

    /** 1 when some Block2 option among the first `numOptions` says that more blocks follow. */
    method GetOptionsBlock2Next() returns (r: int)
      requires Layout() && 0 <= numOptions <= |options|
      ensures r == if SaysMore(options[..numOptions]) then 1 else 0
    {
      hide Encodes, Shows, MoreBit;
      var views := GetOptions();
      for i := 0 to numOptions
        invariant forall j :: 0 <= j < i ==> !(IsBlock2(options[j]) && MoreBit(options[j].value))
      {
        var view := views[i];
        ShownValue(view, i);
        if view.number == COAP_OPTION_BLOCK2 {
          var value: byte := 0;
          if view.valueLength == 1 {
            value := pdu[view.valuePointer];
          } else if view.valueLength == 2 {
            value := pdu[view.valuePointer + 1];
          }
          if value / 8 % 2 == 1 {
            return 1;
          }
        }
      }
      return 0;
    }

    lemma {:induction false} ShownValue(view: OptionView, i: nat)
      requires Layout() && i < |options| && Shows(view, i)
      ensures view.number == options[i].number % 0x1_0000 && view.valuePointer + view.valueLength <= pduLength
      ensures MoreBit(options[i].value) <==>
                (view.valueLength == 1 && pdu[view.valuePointer] / 8 % 2 == 1) ||
                (view.valueLength == 2 && pdu[view.valuePointer + 1] / 8 % 2 == 1)
    {
      hide Encodes;
      assert options[i].value == pdu[view.valuePointer..view.valuePointer + view.valueLength];
    }

    // ----- The header

    method SetVersion(version: nat) returns (r: int)
      requires pdu.Length > 0
      modifies pdu
      ensures r == if version > 3 then 0 else 1
      ensures pdu[0] == if version > 3 then old(pdu[0]) else old(pdu[0]) % 64 + 64 * version
      ensures pdu[1..] == old(pdu[1..])
    {
      if version > 3 {
        return 0;
      }
      pdu[0] := pdu[0] % 64 + 64 * version;
      return 1;
    }

    method SetCode(code: byte)
      requires pdu.Length > 1
      modifies pdu
      ensures pdu[..] == old(pdu[..])[1 := code]
    {
      pdu[1] := code;
    }

    method SetMessageID(messageID: uint16)
      requires pdu.Length >= COAP_HDR_SIZE
      modifies pdu
      ensures MessageID() == messageID && pdu[2..COAP_HDR_SIZE] == MessageIDBytes(order, messageID)
      ensures pdu[..2] == old(pdu[..2]) && pdu[COAP_HDR_SIZE..] == old(pdu[COAP_HDR_SIZE..])
    {
      HtonsInvolution(order, messageID);
      var networkOrder := Htons(order, messageID);
      pdu[2] := networkOrder / 0x100;
      pdu[3] := networkOrder % 0x100;
    }

    /** `getMessageID`. */
    function MessageID(): uint16
      reads this, pdu
      requires pdu.Length >= COAP_HDR_SIZE
    {
      Htons(order, pdu[2] as int * 0x100 + pdu[3])
    }

    /** Edits of the header that keep the token length keep the whole message. */
    twostate lemma {:induction false} HeaderEditKeepsValid()
      requires old(Valid()) && pdu == old(pdu)
      requires unchanged(`pduLength, `bufferLength, `payloadPointer, `payloadLength, `token, `options, `payload)
      requires pdu[0] % 16 == old(pdu[0]) % 16 && pdu[COAP_HDR_SIZE..] == old(pdu[COAP_HDR_SIZE..])
      ensures Valid()
    {
      assert pdu[..pduLength][COAP_HDR_SIZE..] == pdu[COAP_HDR_SIZE..][..pduLength - COAP_HDR_SIZE];
      assert old(pdu[..pduLength])[COAP_HDR_SIZE..] == old(pdu[COAP_HDR_SIZE..])[..pduLength - COAP_HDR_SIZE];
    }

    // ----- Making a container

    /** A container that allocates its own buffer. */
    constructor (order: HostOrder)
      ensures Valid() && token == [] && options == [] && payload == []
      ensures this.order == order && fresh(pdu) && !constructedFromBuffer
      ensures numOptions == 0 && maxAddedOptionNumber == 0
      ensures pdu[..] == [0x40, 0, 0, 0] && pduLength == COAP_HDR_SIZE
    {
      this.order := order;
      pdu := new byte[COAP_HDR_SIZE](i => 0);
      pduLength, bufferLength, constructedFromBuffer := COAP_HDR_SIZE, COAP_HDR_SIZE, false;
      payloadPointer, payloadLength, numOptions, maxAddedOptionNumber := NULL, 0, 0, 0;
      token, options, payload := [], [], [];
      payloadBuffer := pdu;
      new;
      hide Encodes;
      assert pdu[1..] == [0, 0, 0];
      var ok := SetVersion(1);
      assert pdu[..] == [pdu[0]] + pdu[1..];
      HeaderAlone(order, pdu[..pduLength]);
    }

    /** A container over an outside buffer, which holds a message of `pduLength` bytes, or none yet if that is 0. */
    constructor FromBuffer(order: HostOrder, buffer: array<byte>, bufferLength: nat, pduLength: nat)
      requires bufferLength <= buffer.Length && (pduLength == 0 ==> COAP_HDR_SIZE <= bufferLength)
      modifies buffer
      ensures this.order == order && pdu == buffer && constructedFromBuffer && this.bufferLength == bufferLength
      ensures numOptions == 0 && maxAddedOptionNumber == 0 && payloadPointer == NULL && payloadLength == 0
      ensures pduLength != 0 ==> buffer[..] == old(buffer[..]) && this.pduLength == pduLength
      ensures pduLength == 0 ==> Valid() && token == [] && options == [] && payload == [] &&
                                 this.pduLength == COAP_HDR_SIZE && buffer[..COAP_HDR_SIZE] == [0x40, 0, 0, 0] &&
                                 buffer[COAP_HDR_SIZE..] == old(buffer[COAP_HDR_SIZE..])
    {
      this.order, pdu, this.bufferLength, constructedFromBuffer := order, buffer, bufferLength, true;
      this.pduLength := if pduLength == 0 then COAP_HDR_SIZE else pduLength;
      payloadPointer, payloadLength, numOptions, maxAddedOptionNumber := NULL, 0, 0, 0;
      token, options, payload := [], [], [];
      payloadBuffer := pdu;
      new;
      if pduLength == 0 {
        hide Encodes;
        pdu[0], pdu[1], pdu[2], pdu[3] := 0, 0, 0, 0;
        var ok := SetVersion(1);
        assert pdu[..COAP_HDR_SIZE] == [pdu[0]] + pdu[1..][..3];
        assert pdu[COAP_HDR_SIZE..] == pdu[1..][3..];
        HeaderAlone(order, pdu[..COAP_HDR_SIZE]);
      }
    }

    /** Empties the container; its buffer stays. The version goes back to 0 as well. */
    method Reset()
      requires COAP_HDR_SIZE <= bufferLength <= pdu.Length
      modifies this`pduLength, this`numOptions, this`maxAddedOptionNumber, this`payloadPointer, this`payloadLength,
               this`token, this`options, this`payload, pdu
      ensures Valid() && token == [] && options == [] && payload == []
      ensures numOptions == 0 && maxAddedOptionNumber == 0 && pduLength == COAP_HDR_SIZE
      ensures forall i :: 0 <= i < pdu.Length ==> pdu[i] == if i < bufferLength then 0 else old(pdu[i])
    {
      forall i | 0 <= i < bufferLength {
        pdu[i] := 0;
      }
      pduLength := COAP_HDR_SIZE;
      numOptions, maxAddedOptionNumber := 0, 0;
      payloadPointer, payloadLength := NULL, 0;
      token, options, payload := [], [], [];
      HeaderAlone(order, pdu[..pduLength]);
    }

    method SetPDULength(len: int)
      modifies this`pduLength
      ensures pduLength == len
    {
      pduLength := len;
    }
  }
}
