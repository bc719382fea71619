/** The CoAP option area as bytes (RFC 7252, section 3.1), independently of how the program edits it.

    `EncodeOptions` writes a list of options, `DecodeOptions` is the reference reader, and `Scan` is the
    walk that the program's validator makes, with its 16-bit truncations written out.
  */
module CoapWire {

  type byte = x: int | 0 <= x < 0x100
  type uint16 = x: int | 0 <= x < 0x1_0000

  const MAX16: nat := 0xFFFF
  const PAYLOAD_MARKER: byte := 0xFF

  /** Which way round the host keeps a 16-bit number in memory. */
  datatype HostOrder = BigEndian | LittleEndian

  /** `htons` and `ntohs`: both swap the bytes on a little-endian host and do nothing on the other. */
  function Htons(order: HostOrder, x: uint16): uint16 {
    match order
    case BigEndian => x
    case LittleEndian => x % 0x100 * 0x100 + x / 0x100
  }

  lemma {:induction false} HtonsInvolution(order: HostOrder, x: uint16)
    ensures Htons(order, Htons(order, x)) == x
  {
  }

  /** An option as its sender means it. Numbers are unbounded here; `Chain` bounds their differences. */
  datatype CoapOption = CoapOption(number: nat, value: seq<byte>)

  // ----- One field: a nibble in the option header, and up to two extension bytes

  function Extra(n: int): nat {
    if n < 13 then 0 else if n < 269 then 1 else 2
  }

  function Nibble(n: nat): (nibble: nat)
    ensures nibble < 15
  {
    if n < 13 then n else if n < 269 then 13 else 14
  }

  function Extension(order: HostOrder, n: nat): (bytes: seq<byte>)
    requires n <= MAX16
    ensures |bytes| == Extra(n)
  {
    if n < 13 then []
    else if n < 269 then [n - 13]
    else
      var wire := Htons(order, n - 269);
      [wire / 0x100, wire % 0x100]
  }

  /** The number of extension bytes that a header nibble announces. */
  function Announced(nibble: int): nat {
    if nibble < 13 then 0 else if nibble == 13 then 1 else 2
  }

  /** The field that a nibble and its extension bytes stand for; it can exceed 16 bits. */
  function FieldValue(order: HostOrder, nibble: nat, ext: seq<byte>): nat
    requires nibble < 15 && |ext| >= Announced(nibble)
  {
    if nibble < 13 then nibble
    else if nibble == 13 then ext[0] as int + 13
    else Htons(order, ext[0] as int * 0x100 + ext[1]) + 269
  }

  lemma {:induction false} FieldRoundTrip(order: HostOrder, n: nat, rest: seq<byte>)
    requires n <= MAX16
    ensures Announced(Nibble(n)) == Extra(n)
    ensures FieldValue(order, Nibble(n), Extension(order, n) + rest) == n
  {
    if n >= 269 {
      var wire := Htons(order, n - 269);
      assert (Extension(order, n) + rest)[..2] == [wire / 0x100, wire % 0x100];
      HtonsInvolution(order, n - 269);
    }
  }

  lemma {:induction false} FieldCanonical(order: HostOrder, nibble: nat, ext: seq<byte>)
    requires nibble < 15 && |ext| >= Announced(nibble)
    requires FieldValue(order, nibble, ext) <= MAX16
    ensures var n := FieldValue(order, nibble, ext);
            Nibble(n) == nibble && Extra(n) == Announced(nibble) && Extension(order, n) == ext[..Extra(n)]
  {
    if nibble == 14 {
      HtonsInvolution(order, ext[0] as int * 0x100 + ext[1]);
    }
  }

  // ----- One option

  function OptionHeader(delta: nat, length: nat): byte {
    16 * Nibble(delta) + Nibble(length)
  }

  /** What follows the delta bytes of an option: these bytes do not depend on the delta. */
  function OptionTail(order: HostOrder, value: seq<byte>): seq<byte>
    requires |value| <= MAX16
  {
    Extension(order, |value|) + value
  }

  function OptionSize(delta: int, length: nat): (size: nat)
    ensures size > length
  {
    1 + Extra(delta) + Extra(length) + length
  }

  function EncodeOption(order: HostOrder, delta: nat, value: seq<byte>): (bytes: seq<byte>)
    requires delta <= MAX16 && |value| <= MAX16
    ensures |bytes| == OptionSize(delta, |value|)
    ensures bytes[0] != PAYLOAD_MARKER
  {
    [OptionHeader(delta, |value|)] + Extension(order, delta) + OptionTail(order, value)
  }

  // ----- A list of options

  /** The options can be written after one numbered `prev`: every delta and length fits 16 bits. */
  predicate Chain(prev: nat, opts: seq<CoapOption>)
    decreases |opts|
  {
    opts == [] ||
    (prev <= opts[0].number <= prev + MAX16 && |opts[0].value| <= MAX16 && Chain(opts[0].number, opts[1..]))
  }

  function EncodeOptions(order: HostOrder, prev: nat, opts: seq<CoapOption>): seq<byte>
    requires Chain(prev, opts)
    decreases |opts|
  {
    if opts == [] then []
    else
      EncodeOption(order, opts[0].number - prev, opts[0].value) + EncodeOptions(order, opts[0].number, opts[1..])
  }

  /** The number that the next delta is relative to. */
  function Last(prev: nat, opts: seq<CoapOption>): nat {
    if opts == [] then prev else opts[|opts| - 1].number
  }

  lemma {:induction false} EncodeCons(order: HostOrder, prev: nat, head: CoapOption, tail: seq<CoapOption>,
                                      payload: seq<byte>)
    requires prev <= head.number <= prev + MAX16 && |head.value| <= MAX16 && Chain(head.number, tail)
    ensures Chain(prev, [head] + tail)
    ensures EncodeOptions(order, prev, [head] + tail) + payload
         == EncodeOption(order, head.number - prev, head.value) + (EncodeOptions(order, head.number, tail) + payload)
  {
    hide EncodeOption;
    assert ([head] + tail)[0] == head && ([head] + tail)[1..] == tail;
    var x, y := EncodeOption(order, head.number - prev, head.value), EncodeOptions(order, head.number, tail);
    assert x + y + payload == x + (y + payload);
  }

  lemma {:induction false} ChainSplit(prev: nat, a: seq<CoapOption>, b: seq<CoapOption>)
    requires Chain(prev, a + b)
    ensures Chain(prev, a) && Chain(Last(prev, a), b)
    decreases |a|
  {
    if a == [] {
      assert a + b == b;
    } else {
      assert (a + b)[1..] == a[1..] + b;
      ChainSplit(a[0].number, a[1..], b);
    }
  }

  lemma {:induction false} EncodeFirst(order: HostOrder, prev: nat, opts: seq<CoapOption>)
    requires Chain(prev, opts)
    ensures opts == [] ==> EncodeOptions(order, prev, opts) == []
    ensures opts != [] ==>
              prev <= opts[0].number <= prev + MAX16 && |opts[0].value| <= MAX16 && Chain(opts[0].number, opts[1..]) &&
              EncodeOptions(order, prev, opts)
                == EncodeOption(order, opts[0].number - prev, opts[0].value)
                   + EncodeOptions(order, opts[0].number, opts[1..])
  {
    hide EncodeOption;
  }

  lemma {:induction false} LastOfRest(prev: nat, a: seq<CoapOption>)
    ensures Last(prev, a) == if a == [] then prev else Last(a[0].number, a[1..])
  {
  }

  lemma {:induction false} EncodeConcat(order: HostOrder, prev: nat, a: seq<CoapOption>, b: seq<CoapOption>)
    requires Chain(prev, a + b)
    ensures Chain(prev, a) && Chain(Last(prev, a), b)
    ensures EncodeOptions(order, prev, a + b) == EncodeOptions(order, prev, a) + EncodeOptions(order, Last(prev, a), b)
    decreases |a|
  {
    hide EncodeOption, EncodeOptions, Chain, OptionSize, Last;
    ChainSplit(prev, a, b);
    LastOfRest(prev, a);
    EncodeFirst(order, prev, a);
    if a == [] {
      assert a + b == b;
    } else {
      EncodeFirst(order, prev, a + b);
      assert (a + b)[1..] == a[1..] + b && (a + b)[0] == a[0];
      EncodeConcat(order, a[0].number, a[1..], b);
      var x, y, z := EncodeOption(order, a[0].number - prev, a[0].value),
                     EncodeOptions(order, a[0].number, a[1..]), EncodeOptions(order, Last(prev, a), b);
      assert x + (y + z) == x + y + z;
    }
  }

  lemma {:induction false} ChainConcat(prev: nat, a: seq<CoapOption>, b: seq<CoapOption>)
    requires Chain(prev, a) && Chain(Last(prev, a), b)
    ensures Chain(prev, a + b)
    decreases |a|
  {
    if a == [] {
      assert a + b == b;
    } else {
      assert (a + b)[1..] == a[1..] + b;
      ChainConcat(a[0].number, a[1..], b);
    }
  }

  lemma {:induction false} ChainSorted(prev: nat, opts: seq<CoapOption>)
    requires Chain(prev, opts)
    ensures forall i :: 0 <= i < |opts| ==> prev <= opts[i].number <= Last(prev, opts)
    ensures forall i, j :: 0 <= i < j < |opts| ==> opts[i].number <= opts[j].number
    ensures prev <= Last(prev, opts)
    ensures forall i :: 0 <= i < |opts| ==> |opts[i].value| <= MAX16
    decreases |opts|
  {
    if opts != [] {
      ChainSorted(opts[0].number, opts[1..]);
      assert forall i :: 1 <= i < |opts| ==> opts[i] == opts[1..][i - 1];
    }
  }

  // ----- The reference reader

  datatype Decoded = Decoded(options: seq<CoapOption>, payload: seq<byte>) | Malformed

  function PayloadPart(payload: seq<byte>): seq<byte> {
    if payload == [] then [] else [PAYLOAD_MARKER] + payload
  }

  /** The header byte is an option header, and the extension bytes that it announces are there. */
  predicate HeaderPresent(s: seq<byte>) {
    s != [] && s[0] / 16 < 15 && s[0] % 16 < 15 &&
    1 + Announced(s[0] / 16) + Announced(s[0] % 16) <= |s|
  }

  function DeltaField(order: HostOrder, s: seq<byte>): nat
    requires HeaderPresent(s)
  {
    FieldValue(order, s[0] / 16, s[1..])
  }

  function LengthField(order: HostOrder, s: seq<byte>): nat
    requires HeaderPresent(s)
  {
    FieldValue(order, s[0] % 16, s[1 + Announced(s[0] / 16)..])
  }

  function DecodeOptions(order: HostOrder, prev: nat, s: seq<byte>): Decoded
    decreases |s|
  {
    if s == [] then Decoded([], [])
    else if s[0] == PAYLOAD_MARKER then
      if |s| > 1 then Decoded([], s[1..]) else Malformed
    else if !HeaderPresent(s) then Malformed
    else
      var delta, length := DeltaField(order, s), LengthField(order, s);
      if delta > MAX16 || length > MAX16 || OptionSize(delta, length) > |s| then Malformed
      else
        var size := OptionSize(delta, length);
        match DecodeOptions(order, prev + delta, s[size..])
        case Malformed => Malformed
        case Decoded(options, payload) =>
          Decoded([CoapOption(prev + delta, s[size - length..size])] + options, payload)
  }

  lemma {:induction false} HeaderNibbles(delta: nat, length: nat)
    ensures OptionHeader(delta, length) / 16 == Nibble(delta)
    ensures OptionHeader(delta, length) % 16 == Nibble(length)
  {
  }

  lemma {:induction false} OptionSlices(header: byte, deltaExt: seq<byte>, lengthExt: seq<byte>, value: seq<byte>,
                                        rest: seq<byte>)
    ensures var s := [header] + deltaExt + (lengthExt + value) + rest;
            var end := 1 + |deltaExt| + |lengthExt| + |value|;
            s[0] == header && s[1..] == deltaExt + (lengthExt + value + rest) &&
            s[1 + |deltaExt|..] == lengthExt + (value + rest) &&
            s[end..] == rest && s[end - |value|..end] == value
  {
  }

  lemma {:induction false} HeaderOfEncoding(order: HostOrder, delta: nat, value: seq<byte>, rest: seq<byte>)
    requires delta <= MAX16 && |value| <= MAX16
    ensures var s := EncodeOption(order, delta, value) + rest;
            HeaderPresent(s) && s[0] != PAYLOAD_MARKER &&
            DeltaField(order, s) == delta && LengthField(order, s) == |value| &&
            s[OptionSize(delta, |value|)..] == rest &&
            s[OptionSize(delta, |value|) - |value|..OptionSize(delta, |value|)] == value
  {
    hide Extension, Nibble, OptionHeader, FieldValue, Extra, Announced;
    HeaderNibbles(delta, |value|);
    OptionSlices(OptionHeader(delta, |value|), Extension(order, delta), Extension(order, |value|), value, rest);
    FieldRoundTrip(order, delta, Extension(order, |value|) + value + rest);
    FieldRoundTrip(order, |value|, value + rest);
    assert Nibble(delta) < 15 && Nibble(|value|) < 15;
  }

  lemma {:induction false} DecodePayload(order: HostOrder, prev: nat, payload: seq<byte>)
    ensures EncodeOptions(order, prev, []) + PayloadPart(payload) == PayloadPart(payload)
    ensures DecodeOptions(order, prev, PayloadPart(payload)) == Decoded([], payload)
  {
  }

  lemma {:induction false} DecodeFirst(order: HostOrder, prev: nat, delta: nat, value: seq<byte>, rest: seq<byte>)
    requires delta <= MAX16 && |value| <= MAX16
    requires DecodeOptions(order, prev + delta, rest).Decoded?
    ensures var d := DecodeOptions(order, prev + delta, rest);
            DecodeOptions(order, prev, EncodeOption(order, delta, value) + rest)
              == Decoded([CoapOption(prev + delta, value)] + d.options, d.payload)
  {
    hide EncodeOption, DeltaField, LengthField, HeaderPresent, OptionSize;
    HeaderOfEncoding(order, delta, value, rest);
  }

  /** Reading back what was written gives the same options and payload, and nothing else. */
  lemma {:induction false} DecodeEncode(order: HostOrder, prev: nat, opts: seq<CoapOption>, payload: seq<byte>)
    requires Chain(prev, opts)
    ensures DecodeOptions(order, prev, EncodeOptions(order, prev, opts) + PayloadPart(payload))
            == Decoded(opts, payload)
    decreases |opts|
  {
    hide EncodeOption, EncodeOptions, DecodeOptions, PayloadPart;
    if opts == [] {
      DecodePayload(order, prev, payload);
    } else {
      var head, tail := opts[0], opts[1..];
      var rest := EncodeOptions(order, head.number, tail) + PayloadPart(payload);
      assert opts == [head] + tail;
      EncodeCons(order, prev, head, tail, PayloadPart(payload));
      DecodeEncode(order, head.number, tail, payload);
      DecodeFirst(order, prev, head.number - prev, head.value, rest);
    }
  }

  lemma {:induction false} EncodingOfHeader(order: HostOrder, s: seq<byte>)
    requires HeaderPresent(s)
    requires DeltaField(order, s) <= MAX16 && LengthField(order, s) <= MAX16
    requires OptionSize(DeltaField(order, s), LengthField(order, s)) <= |s|
    ensures var delta, length := DeltaField(order, s), LengthField(order, s);
            var size := OptionSize(delta, length);
            s[..size] == EncodeOption(order, delta, s[size - length..size])
  {
    hide Extension, Nibble, FieldValue, Extra, Announced;
    var delta, length := DeltaField(order, s), LengthField(order, s);
    var size := OptionSize(delta, length);
    FieldCanonical(order, s[0] / 16, s[1..]);
    FieldCanonical(order, s[0] % 16, s[1 + Announced(s[0] / 16)..]);
    assert s[1..][..Extra(delta)] == s[1..1 + Extra(delta)];
    assert s[1 + Extra(delta)..][..Extra(length)] == s[1 + Extra(delta)..size - length];
    assert s[..size] == [s[0]] + s[1..1 + Extra(delta)] + (s[1 + Extra(delta)..size - length] + s[size - length..size]);
  }

  lemma {:induction false} PayloadAlone(order: HostOrder, prev: nat, s: seq<byte>)
    requires s == [] || (s[0] == PAYLOAD_MARKER && |s| > 1)
    ensures var d := DecodeOptions(order, prev, s);
            d.Decoded? && d.options == [] && Chain(prev, d.options) &&
            s == EncodeOptions(order, prev, d.options) + PayloadPart(d.payload)
  {
  }

  /** Whatever the reader accepts is the encoding of what it returns. */
  lemma {:induction false} EncodeDecode(order: HostOrder, prev: nat, s: seq<byte>)
    requires DecodeOptions(order, prev, s).Decoded?
    ensures var d := DecodeOptions(order, prev, s);
            Chain(prev, d.options) && s == EncodeOptions(order, prev, d.options) + PayloadPart(d.payload)
    decreases |s|
  {
    hide EncodeOption, EncodeOptions, Chain, PayloadPart, DeltaField, LengthField, HeaderPresent, OptionSize;
    if s == [] || s[0] == PAYLOAD_MARKER {
      PayloadAlone(order, prev, s);
    } else {
      var delta, length := DeltaField(order, s), LengthField(order, s);
      var size := OptionSize(delta, length);
      EncodingOfHeader(order, s);
      EncodeDecode(order, prev + delta, s[size..]);
      var rest, head := DecodeOptions(order, prev + delta, s[size..]), CoapOption(prev + delta, s[size - length..size]);
      EncodeCons(order, prev, head, rest.options, PayloadPart(rest.payload));
      assert s == s[..size] + s[size..];
      assert DecodeOptions(order, prev, s) == Decoded([head] + rest.options, rest.payload);
    }
  }

  // ----- The validator's walk

  /** What one call of the validator finds out about the option area. */
  datatype Verdict = Accepted(count: nat, payload: seq<byte>) | Rejected

  function ScannedDelta(order: HostOrder, s: seq<byte>): uint16
    requires HeaderPresent(s)
  {
    DeltaField(order, s) % 0x1_0000
  }

  function ScannedLength(order: HostOrder, s: seq<byte>): uint16
    requires HeaderPresent(s)
  {
    LengthField(order, s) % 0x1_0000
  }

  function ScannedSize(order: HostOrder, s: seq<byte>): nat
    requires HeaderPresent(s)
  {
    OptionSize(ScannedDelta(order, s), ScannedLength(order, s))
  }

  /** The validator's own test for a complete option header among `n` remaining bytes. It applies the byte count
      of a field value to the nibble, so a 14-nibble counts for one extension byte instead of two. */
  predicate HeaderChecked(s: seq<byte>, n: nat) {
    0 < n <= |s| && s[0] / 16 < 15 && s[0] % 16 < 15 && 1 + Extra(s[0] / 16) + Extra(s[0] % 16) <= n
  }

  /** The walk over the first `n` bytes of a buffer reads no byte behind the buffer. The short header test can make it
      read up to two bytes behind the message. */
  predicate StaysInside(order: HostOrder, s: seq<byte>, n: nat)
    decreases n
  {
    n <= |s| &&
    (n > 0 && s[0] != PAYLOAD_MARKER && HeaderChecked(s, n) ==>
       HeaderPresent(s) &&
       (ScannedSize(order, s) <= n ==> StaysInside(order, s[ScannedSize(order, s)..], n - ScannedSize(order, s))))
  }

  lemma {:induction false} SlackSuffices(order: HostOrder, s: seq<byte>, n: nat)
    requires n + 2 <= |s|
    ensures StaysInside(order, s, n)
    decreases n
  {
    hide FieldValue;
    if n > 0 && s[0] != PAYLOAD_MARKER && HeaderChecked(s, n) && ScannedSize(order, s) <= n {
      SlackSuffices(order, s[ScannedSize(order, s)..], n - ScannedSize(order, s));
    }
  }

  /** The walk over the first `n` bytes of `s`. What follows them is whatever lies behind the message in its buffer. */
  function Scan(order: HostOrder, s: seq<byte>, n: nat): Verdict
    requires StaysInside(order, s, n)
    decreases n
  {
    if n == 0 then Accepted(0, [])
    else if s[0] == PAYLOAD_MARKER then
      if n > 1 then Accepted(0, s[1..n]) else Rejected
    else if !HeaderChecked(s, n) || ScannedSize(order, s) > n then Rejected
    else
      var size := ScannedSize(order, s);
      match Scan(order, s[size..], n - size)
      case Rejected => Rejected
      case Accepted(count, payload) => Accepted(count + 1, payload)
  }

  /** The verdict on a whole area, from the number of options walked over and the verdict on the rest. */
  function Beyond(count: nat, rest: Verdict): Verdict {
    if rest.Accepted? then Accepted(count + rest.count, rest.payload) else Rejected
  }

  lemma {:induction false} ScanEmpty(order: HostOrder, s: seq<byte>)
    ensures StaysInside(order, s, 0) && Scan(order, s, 0) == Accepted(0, [])
  {
  }

  lemma {:induction false} ScanPayload(order: HostOrder, s: seq<byte>, n: nat)
    requires 0 < n && StaysInside(order, s, n) && s[0] == PAYLOAD_MARKER
    ensures Scan(order, s, n) == if n > 1 then Accepted(0, s[1..n]) else Rejected
  {
  }

  lemma {:induction false} ScanStep(order: HostOrder, s: seq<byte>, n: nat, count: nat)
    requires 0 < n && StaysInside(order, s, n) && s[0] != PAYLOAD_MARKER
    ensures !HeaderChecked(s, n) ==> Scan(order, s, n) == Rejected
    ensures HeaderChecked(s, n) ==>
              HeaderPresent(s) && ScannedSize(order, s) > 0 &&
              var size := ScannedSize(order, s);
              (size <= n ==> StaysInside(order, s[size..], n - size)) &&
              Beyond(count, Scan(order, s, n)) == if size > n then Rejected
                                                  else Beyond(count + 1, Scan(order, s[size..], n - size))
  {
    hide FieldValue;
  }

  /** The walk reaches a 14-nibble field that stands for more than 16 bits can hold. */
  predicate MeetsOversizedField(order: HostOrder, s: seq<byte>, n: nat)
    requires StaysInside(order, s, n)
    decreases n
  {
    n > 0 && s[0] != PAYLOAD_MARKER && HeaderChecked(s, n) &&
    (DeltaField(order, s) > MAX16 || LengthField(order, s) > MAX16 ||
     (ScannedSize(order, s) <= n &&
      MeetsOversizedField(order, s[ScannedSize(order, s)..], n - ScannedSize(order, s))))
  }

  /** A header is read the same way whatever follows it. */
  lemma {:induction false} HeaderPrefix(order: HostOrder, s: seq<byte>, n: nat)
    requires n <= |s| && HeaderPresent(s[..n])
    ensures HeaderPresent(s) && s[0] == s[..n][0]
    ensures DeltaField(order, s) == DeltaField(order, s[..n]) && LengthField(order, s) == LengthField(order, s[..n])
    ensures ScannedDelta(order, s) == ScannedDelta(order, s[..n]) &&
            ScannedLength(order, s) == ScannedLength(order, s[..n])
  {
  }

  lemma {:induction false} FieldExtra(order: HostOrder, nibble: nat, ext: seq<byte>)
    requires nibble < 15 && |ext| >= Announced(nibble)
    ensures FieldValue(order, nibble, ext) <= MAX16 ==> Extra(FieldValue(order, nibble, ext)) == Announced(nibble)
  {
  }

  /** A header that is incomplete, or whose option is too long, is refused unless a field is oversized. */
  lemma {:induction false} IncompleteIsRejected(order: HostOrder, s: seq<byte>, n: nat)
    requires n <= |s| && HeaderChecked(s, n) && HeaderPresent(s)
    ensures !HeaderPresent(s[..n]) && DeltaField(order, s) <= MAX16 && LengthField(order, s) <= MAX16
            ==> ScannedSize(order, s) > n
  {
    hide FieldValue;
    FieldExtra(order, s[0] / 16, s[1..]);
    FieldExtra(order, s[0] % 16, s[1 + Announced(s[0] / 16)..]);
  }

  ghost predicate ScanAgrees(order: HostOrder, prev: nat, s: seq<byte>, n: nat)
    requires StaysInside(order, s, n)
  {
    var d, verdict := DecodeOptions(order, prev, s[..n]), Scan(order, s, n);
    (d.Decoded? <==> verdict.Accepted? && !MeetsOversizedField(order, s, n)) &&
    (d.Decoded? ==> verdict == Accepted(|d.options|, d.payload))
  }

  lemma {:induction false} ScanEnds(order: HostOrder, prev: nat, s: seq<byte>, n: nat)
    requires StaysInside(order, s, n) && (n == 0 || s[0] == PAYLOAD_MARKER || !HeaderChecked(s, n))
    ensures ScanAgrees(order, prev, s, n)
  {
    hide FieldValue, OptionSize;
  }

  lemma {:induction false} ScanStops(order: HostOrder, prev: nat, s: seq<byte>, n: nat)
    requires 0 < n && StaysInside(order, s, n) && s[0] != PAYLOAD_MARKER && HeaderChecked(s, n)
    requires HeaderPresent(s[..n]) && DeltaField(order, s) <= MAX16 && LengthField(order, s) <= MAX16
             ==> ScannedSize(order, s) > n
    ensures ScanAgrees(order, prev, s, n)
  {
    hide FieldValue, OptionSize;
    IncompleteIsRejected(order, s, n);
    if HeaderPresent(s[..n]) {
      HeaderPrefix(order, s, n);
    }
  }

  lemma {:induction false} ScanContinues(order: HostOrder, prev: nat, s: seq<byte>, n: nat)
    requires 0 < n && StaysInside(order, s, n) && s[0] != PAYLOAD_MARKER && HeaderChecked(s, n) && HeaderPresent(s[..n])
    requires DeltaField(order, s) <= MAX16 && LengthField(order, s) <= MAX16 && ScannedSize(order, s) <= n
    requires ScanAgrees(order, prev + DeltaField(order, s), s[ScannedSize(order, s)..], n - ScannedSize(order, s))
    ensures ScanAgrees(order, prev, s, n)
  {
    hide FieldValue, OptionSize, HeaderChecked, HeaderPresent, DeltaField, LengthField;
    HeaderPrefix(order, s, n);
    var size := ScannedSize(order, s);
    assert s[..n][size..] == s[size..][..n - size];
  }

  /** The validator's walk accepts exactly the encodings, once inputs with an oversized field are set apart;
      on an encoding it counts the options and finds the payload. */
  lemma {:induction false} ScanIsDecode(order: HostOrder, prev: nat, s: seq<byte>, n: nat)
    requires StaysInside(order, s, n)
    ensures DecodeOptions(order, prev, s[..n]).Decoded?
       <==> Scan(order, s, n).Accepted? && !MeetsOversizedField(order, s, n)
    ensures var d := DecodeOptions(order, prev, s[..n]);
            d.Decoded? ==> Scan(order, s, n) == Accepted(|d.options|, d.payload)
    decreases n
  {
    hide DecodeOptions, Scan, MeetsOversizedField, DeltaField, LengthField, ScannedSize;
    if n == 0 || s[0] == PAYLOAD_MARKER || !HeaderChecked(s, n) {
      ScanEnds(order, prev, s, n);
    } else {
      IncompleteIsRejected(order, s, n);
      var size := ScannedSize(order, s);
      if HeaderPresent(s[..n]) && DeltaField(order, s) <= MAX16 && LengthField(order, s) <= MAX16 && size <= n {
        SizePositive(order, s);
        ScanIsDecode(order, prev + DeltaField(order, s), s[size..], n - size);
        ScanContinues(order, prev, s, n);
      } else {
        ScanStops(order, prev, s, n);
      }
    }
    assert ScanAgrees(order, prev, s, n);
  }

  /** On what decodes, the walk stays inside any buffer that holds it. */
  lemma {:induction false} DecodableStaysInside(order: HostOrder, prev: nat, s: seq<byte>, n: nat)
    requires n <= |s| && DecodeOptions(order, prev, s[..n]).Decoded?
    ensures StaysInside(order, s, n)
    decreases n
  {
    hide FieldValue, OptionSize, DeltaField, LengthField;
    if n > 0 && s[0] != PAYLOAD_MARKER {
      HeaderPrefix(order, s, n);
      var size := ScannedSize(order, s);
      assert s[..n][0] == s[0];
      if size <= n {
        SizePositive(order, s);
        assert s[..n][size..] == s[size..][..n - size];
        DecodableStaysInside(order, prev + DeltaField(order, s), s[size..], n - size);
      }
    }
  }

  lemma {:induction false} SizePositive(order: HostOrder, s: seq<byte>)
    requires HeaderPresent(s)
    ensures ScannedSize(order, s) > 0
  {
  }

  /** An oversized field really misleads the walk: this input is no encoding, and is accepted as one option and a
      payload, because the second extension byte is taken for the payload marker. */
  lemma OversizedFieldIsAccepted(behind: byte)
    ensures StaysInside(BigEndian, [0xE0, 0xFF, 0xFF, 0x41, behind, behind], 4)
    ensures Scan(BigEndian, [0xE0, 0xFF, 0xFF, 0x41, behind, behind], 4) == Accepted(1, [0x41])
    ensures DecodeOptions(BigEndian, 0, [0xE0, 0xFF, 0xFF, 0x41]) == Malformed
  {
    var s: seq<byte> := [0xE0, 0xFF, 0xFF, 0x41, behind, behind];
    SlackSuffices(BigEndian, s, 4);
    assert s[1..] == [0xFF, 0xFF, 0x41, behind, behind];
    assert ScannedDelta(BigEndian, s) == 268 && ScannedLength(BigEndian, s) == 0;
    assert s[2..] == [0xFF, 0x41, behind, behind];
    assert s[2..][1..2] == [0x41];
  }

  /** So does a truncated one: the missing byte is taken from behind the message, whatever lies there. */
  lemma TruncatedFieldIsAccepted(behind: byte)
    ensures StaysInside(BigEndian, [0xE0, 0xFF, behind, behind], 2)
    ensures Scan(BigEndian, [0xE0, 0xFF, behind, behind], 2) == Accepted(1, [])
    ensures DecodeOptions(BigEndian, 0, [0xE0, 0xFF]) == Malformed
  {
    var s: seq<byte> := [0xE0, 0xFF, behind, behind];
    SlackSuffices(BigEndian, s, 2);
    assert s[1..] == [0xFF, behind, behind];
    assert ScannedDelta(BigEndian, s) == 13 + behind as int && ScannedLength(BigEndian, s) == 0;
  }

  /** The same two bytes at the end of a buffer: the walk reads behind it. */
  lemma WalkReadsBehind(order: HostOrder)
    ensures !StaysInside(order, [0xE0, 0xFF], 2)
  {
    var s: seq<byte> := [0xE0, 0xFF];
    assert HeaderChecked(s, 2) && !HeaderPresent(s);
  }
}
