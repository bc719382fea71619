/** What adding an option means for the list of options, and for the bytes that encode it. */
module CoapOptions {
  import opened Buffers
  import opened CoapWire

  // ----- Stable insertion by option number

  /** The position behind every option whose number is at most `number`. */
  function InsertIndex(opts: seq<CoapOption>, number: nat): (k: nat)
    ensures k <= |opts|
    ensures forall i :: 0 <= i < k ==> opts[i].number <= number
    ensures k < |opts| ==> number < opts[k].number
  {
    if opts == [] || number < opts[0].number then 0 else 1 + InsertIndex(opts[1..], number)
  }

  function Insert(opts: seq<CoapOption>, option: CoapOption): (inserted: seq<CoapOption>)
    ensures |inserted| == |opts| + 1
  {
    var k := InsertIndex(opts, option.number);
    opts[..k] + [option] + opts[k..]
  }

  /** Options in the order in which they were added, inserted one by one. */
  function InsertAll(added: seq<CoapOption>): seq<CoapOption> {
    if added == [] then [] else Insert(InsertAll(added[..|added| - 1]), added[|added| - 1])
  }

  predicate Sorted(opts: seq<CoapOption>) {
    forall i, j :: 0 <= i < j < |opts| ==> opts[i].number <= opts[j].number
  }

  function WithNumber(opts: seq<CoapOption>, number: nat): seq<CoapOption> {
    if opts == [] then []
    else (if opts[0].number == number then [opts[0]] else []) + WithNumber(opts[1..], number)
  }

  lemma {:induction false} WithNumberConcat(a: seq<CoapOption>, b: seq<CoapOption>, number: nat)
    ensures WithNumber(a + b, number) == WithNumber(a, number) + WithNumber(b, number)
  {
    if a == [] {
      assert a + b == b;
    } else {
      assert (a + b)[1..] == a[1..] + b && (a + b)[0] == a[0];
      WithNumberConcat(a[1..], b, number);
      var x, y, z := if a[0].number == number then [a[0]] else [], WithNumber(a[1..], number), WithNumber(b, number);
      assert x + (y + z) == x + y + z;
    }
  }

  lemma {:induction false} WithNumberAbsent(opts: seq<CoapOption>, number: nat)
    requires forall i :: 0 <= i < |opts| ==> opts[i].number != number
    ensures WithNumber(opts, number) == []
  {
    if opts != [] {
      WithNumberAbsent(opts[1..], number);
    }
  }

  lemma {:induction false} InsertedAt(opts: seq<CoapOption>, option: CoapOption, i: nat)
    requires i <= |opts|
    ensures var k := InsertIndex(opts, option.number);
            Insert(opts, option)[i] == if i < k then opts[i] else if i == k then option else opts[i - 1]
  {
  }

  lemma {:induction false} InsertSorts(opts: seq<CoapOption>, option: CoapOption)
    requires Sorted(opts)
    ensures Sorted(Insert(opts, option))
  {
    hide Insert;
    forall i, j | 0 <= i < j <= |opts|
      ensures Insert(opts, option)[i].number <= Insert(opts, option)[j].number
    {
      InsertedAt(opts, option, i);
      InsertedAt(opts, option, j);
    }
  }

  lemma {:induction false} InsertPermutes(opts: seq<CoapOption>, option: CoapOption)
    ensures multiset(Insert(opts, option)) == multiset(opts + [option])
  {
    var k := InsertIndex(opts, option.number);
    assert opts == opts[..k] + opts[k..];
  }

  lemma {:induction false} InsertIsStable(opts: seq<CoapOption>, option: CoapOption, number: nat)
    ensures Sorted(opts) ==> WithNumber(Insert(opts, option), number) == WithNumber(opts + [option], number)
  {
    hide WithNumber, Insert, InsertIndex;
    var k := InsertIndex(opts, option.number);
    var a, b := opts[..k], opts[k..];
    InsertSplit(opts, option);
    WithNumberConcat(a, b, number);
    WithNumberConcat(a, [option] + b, number);
    WithNumberConcat([option], b, number);
    WithNumberConcat(opts, [option], number);
    if number != option.number {
      WithNumberAbsent([option], number);
    } else if Sorted(opts) {
      WithNumberAbsent(b, number);
    }
  }

  lemma {:induction false} InsertSplit(opts: seq<CoapOption>, option: CoapOption)
    ensures var k := InsertIndex(opts, option.number);
            opts == opts[..k] + opts[k..] && Insert(opts, option) == opts[..k] + ([option] + opts[k..])
  {
  }

  /** Adding options one by one sorts them by number and keeps equal numbers in the order of addition. */
  lemma {:induction false} InsertAllIsStableSort(added: seq<CoapOption>, number: nat)
    ensures Sorted(InsertAll(added)) && multiset(InsertAll(added)) == multiset(added)
    ensures WithNumber(InsertAll(added), number) == WithNumber(added, number)
  {
    if added != [] {
      hide Insert, WithNumber;
      var init, last := added[..|added| - 1], added[|added| - 1];
      InsertAllIsStableSort(init, number);
      InsertSorts(InsertAll(init), last);
      InsertPermutes(InsertAll(init), last);
      InsertIsStable(InsertAll(init), last, number);
      WithNumberConcat(InsertAll(init), [last], number);
      WithNumberConcat(init, [last], number);
      assert added == init + [last];
    }
  }

  lemma {:induction false} InsertIndexIs(opts: seq<CoapOption>, number: nat, k: nat)
    requires k <= |opts| && (forall i :: 0 <= i < k ==> opts[i].number <= number)
    requires k < |opts| ==> number < opts[k].number
    ensures InsertIndex(opts, number) == k
  {
    hide InsertIndex;
  }

  /** The options can be held by a message: numbers and lengths fit 16 bits. */
  predicate Small(opts: seq<CoapOption>) {
    Chain(0, opts) && Last(0, opts) <= MAX16
  }

  lemma {:induction false} NumberFits(opts: seq<CoapOption>, k: nat)
    requires Small(opts) && k < |opts|
    ensures opts[k].number <= MAX16
  {
    ChainSorted(0, opts);
  }

  lemma {:induction false} StartOf(opts: seq<CoapOption>)
    ensures Last(0, opts[..0]) == 0
    ensures Small(opts) ==> Chain(0, opts)
  {
  }

  /** Where an option goes: the options before it, and those from `InsertIndex` on with their own deltas. */
  lemma {:induction false} AroundInsertion(opts: seq<CoapOption>, option: CoapOption)
    requires Small(opts) && option.number <= MAX16
    ensures var k := InsertIndex(opts, option.number);
            Chain(0, opts[..k]) && Last(0, opts[..k]) <= option.number && Chain(Last(0, opts[..k]), opts[k..]) &&
            Chain(option.number, opts[k..]) && Last(option.number, opts[k..]) <= MAX16
  {
    hide Chain, Insert, InsertIndex, Last, Small;
    var k := InsertIndex(opts, option.number);
    assert opts == opts[..k] + opts[k..];
    StartOf(opts);
    ChainSplit(0, opts[..k], opts[k..]);
    LastBelow(opts, k, option.number);
    ChainRebase(Last(0, opts[..k]), option.number, opts[k..]);
    LastFits(opts, k, option.number);
  }

  lemma {:induction false} LastBelow(opts: seq<CoapOption>, k: nat, number: nat)
    requires k <= |opts| && forall i :: 0 <= i < k ==> opts[i].number <= number
    ensures Last(0, opts[..k]) <= number
  {
  }

  lemma {:induction false} LastFits(opts: seq<CoapOption>, k: nat, number: nat)
    requires k <= |opts| && Small(opts) && number <= MAX16
    ensures Last(number, opts[k..]) <= MAX16
  {
    hide Chain;
    assert k < |opts| ==> opts[k..][|opts| - k - 1] == opts[|opts| - 1];
  }

  lemma {:induction false} ChainRebase(prev: nat, closer: nat, opts: seq<CoapOption>)
    requires Chain(prev, opts) && prev <= closer && (opts != [] ==> closer <= opts[0].number)
    ensures Chain(closer, opts)
  {
  }

  lemma {:induction false} InsertKeepsChain(opts: seq<CoapOption>, option: CoapOption)
    requires Small(opts) && option.number <= MAX16 && |option.value| <= MAX16
    ensures Small(Insert(opts, option))
  {
    hide Chain, Insert, InsertIndex;
    AroundInsertion(opts, option);
    var k := InsertIndex(opts, option.number);
    assert Last(0, opts[..k]) <= option.number <= Last(0, opts[..k]) + MAX16;
    ChainPrepend(Last(0, opts[..k]), option, opts[k..]);
    ChainConcat(0, opts[..k], [option] + opts[k..]);
    InsertSplit(opts, option);
    InsertedAt(opts, option, |opts|);
  }

  lemma {:induction false} ChainPrepend(prev: nat, option: CoapOption, opts: seq<CoapOption>)
    requires prev <= option.number <= prev + MAX16 && |option.value| <= MAX16 && Chain(option.number, opts)
    ensures Chain(prev, [option] + opts)
  {
    assert ([option] + opts)[1..] == opts;
  }

  // ----- What the program's insertion does, given its record of the largest number added

  /** The hint tells the truth about the list, or does not matter for this number. */
  predicate HintServes(opts: seq<CoapOption>, hint: nat, number: nat) {
    hint == Last(0, opts) || (opts != [] && number < hint)
  }

  /** The list after a successful addition: the append path trusts the hint for the delta. */
  function AddOutcome(opts: seq<CoapOption>, hint: nat, option: CoapOption): seq<CoapOption> {
    if option.number >= hint || opts == [] then
      opts + [CoapOption(Last(0, opts) + (option.number - hint) % 0x1_0000, option.value)]
    else
      Insert(opts, option)
  }

  /** Adding an option is stable insertion exactly when the hint serves. */
  lemma {:induction false} AddOutcomeIsInsertIff(opts: seq<CoapOption>, hint: uint16, option: CoapOption)
    requires Small(opts) && option.number <= MAX16
    ensures AddOutcome(opts, hint, option) == Insert(opts, option) <==> HintServes(opts, hint, option.number)
  {
    ChainSorted(0, opts);
    var k := InsertIndex(opts, option.number);
    var inserted, outcome := Insert(opts, option), AddOutcome(opts, hint, option);
    assert inserted[k] == option;
    if option.number >= hint || opts == [] {
      if k == |opts| {
        assert opts[..k] == opts && opts[k..] == [];
        assert inserted[|opts|] == option;
      } else {
        assert outcome[k] == opts[k];
      }
    }
  }

  /** A serving hint is again the truth afterwards when it is raised to the number appended. */
  lemma {:induction false} HintAfterAdding(opts: seq<CoapOption>, hint: uint16, option: CoapOption)
    requires Small(opts) && hint == Last(0, opts) && option.number <= MAX16
    ensures Last(0, Insert(opts, option)) == if option.number >= hint then option.number else hint
  {
    ChainSorted(0, opts);
    var k := InsertIndex(opts, option.number);
    if k < |opts| {
      assert Insert(opts, option)[|opts|] == opts[|opts| - 1];
    }
  }

  // ----- Bytes

  /** Splitting a delta in two never needs more than one extension byte more than the whole, so the hole
      for an inserted option is never negative. */
  lemma {:induction false} SplitDelta(a: nat, b: nat)
    ensures Extra(a + b) <= 1 + Extra(a) + Extra(b)
    ensures Extra(b) <= Extra(a + b)
  {
  }

  /** The part of an encoding from option `k` on, behind the delta bytes of that option. */
  function BehindDelta(order: HostOrder, opts: seq<CoapOption>, k: nat): seq<byte>
    requires k < |opts| && |opts[k].value| <= MAX16 && Chain(opts[k].number, opts[k + 1..])
  {
    OptionTail(order, opts[k].value) + EncodeOptions(order, opts[k].number, opts[k + 1..])
  }

  lemma {:induction false} ChainAt(opts: seq<CoapOption>, k: nat)
    requires Chain(0, opts) && k < |opts|
    ensures opts == opts[..k] + ([opts[k]] + opts[k + 1..])
    ensures Chain(0, opts[..k]) && Chain(opts[k].number, opts[k + 1..]) && |opts[k].value| <= MAX16
    ensures Last(0, opts[..k]) <= opts[k].number <= Last(0, opts[..k]) + MAX16
  {
    var b := [opts[k]] + opts[k + 1..];
    assert b[1..] == opts[k + 1..];
    assert opts == opts[..k] + b;
    ChainSplit(0, opts[..k], b);
  }

  lemma {:induction false} ChainBehind(opts: seq<CoapOption>, k: nat)
    requires Chain(0, opts) && k < |opts|
    ensures Chain(opts[k].number, opts[k + 1..]) && |opts[k].value| <= MAX16
  {
    hide Chain;
    ChainAt(opts, k);
  }

  /** An encoding, cut at the delta bytes of option `k`. */
  lemma {:induction false} EncodeAt(order: HostOrder, opts: seq<CoapOption>, k: nat)
    requires Chain(0, opts) && k < |opts|
    ensures Chain(0, opts[..k]) && Chain(opts[k].number, opts[k + 1..]) && |opts[k].value| <= MAX16
    ensures Last(0, opts[..k]) <= opts[k].number <= Last(0, opts[..k]) + MAX16
    ensures var delta := opts[k].number - Last(0, opts[..k]);
            EncodeOptions(order, 0, opts)
              == EncodeOptions(order, 0, opts[..k])
                 + ([OptionHeader(delta, |opts[k].value|)] + Extension(order, delta) + BehindDelta(order, opts, k))
  {
    hide Extension, OptionHeader, OptionTail, EncodeOptions, Chain, Last;
    ChainAt(opts, k);
    var a, tail, prev := opts[..k], opts[k + 1..], Last(0, opts[..k]);
    EncodeConcat(order, 0, a, [opts[k]] + tail);
    EncodeCons(order, prev, opts[k], tail, []);
    var delta, rest := opts[k].number - prev, EncodeOptions(order, opts[k].number, tail);
    var x, y := [OptionHeader(delta, |opts[k].value|)] + Extension(order, delta), OptionTail(order, opts[k].value);
    assert x + y + (rest + []) == x + (y + rest);
  }

  lemma {:induction false} EncodeAppended(order: HostOrder, opts: seq<CoapOption>, option: CoapOption)
    requires Chain(0, opts) && Last(0, opts) <= option.number <= Last(0, opts) + MAX16 && |option.value| <= MAX16
    ensures Chain(0, opts + [option])
    ensures EncodeOptions(order, 0, opts + [option])
         == EncodeOptions(order, 0, opts) + EncodeOption(order, option.number - Last(0, opts), option.value)
  {
    hide EncodeOption;
    ChainConcat(0, opts, [option]);
    EncodeConcat(order, 0, opts, [option]);
  }

  lemma {:induction false} AfterInsertion(opts: seq<CoapOption>, option: CoapOption)
    requires InsertIndex(opts, option.number) < |opts|
    ensures var k := InsertIndex(opts, option.number);
            var inserted := Insert(opts, option);
            inserted[..k + 1] == opts[..k] + [option] && inserted[k + 2..] == opts[k + 1..] &&
            inserted[k + 1] == opts[k] && Last(0, inserted[..k + 1]) == option.number
  {
  }

  lemma {:induction false} InsertionBounds(opts: seq<CoapOption>, option: CoapOption)
    requires Small(opts) && option.number <= MAX16 && |option.value| <= MAX16
    requires InsertIndex(opts, option.number) < |opts|
    ensures var k := InsertIndex(opts, option.number);
            Chain(0, opts[..k]) && Chain(opts[k].number, opts[k + 1..]) && |opts[k].value| <= MAX16 &&
            Last(0, opts[..k]) <= option.number <= opts[k].number <= MAX16 && Small(Insert(opts, option))
  {
    hide Chain, Last, Insert, InsertIndex, Small;
    StartOf(opts);
    ChainBehind(opts, InsertIndex(opts, option.number));
    NumberFits(opts, InsertIndex(opts, option.number));
    AroundInsertion(opts, option);
    InsertKeepsChain(opts, option);
  }

  /** The encoding after an insertion before option `k`: the new option, then the old one with a smaller delta. */
  lemma {:induction false} EncodeInserted(order: HostOrder, opts: seq<CoapOption>, option: CoapOption, k: nat)
    requires k < |opts| && k == InsertIndex(opts, option.number) && Small(opts) && Small(Insert(opts, option))
    requires Chain(0, opts[..k]) && Chain(opts[k].number, opts[k + 1..]) && |opts[k].value| <= MAX16
    requires Last(0, opts[..k]) <= option.number <= opts[k].number <= MAX16 && |option.value| <= MAX16
    ensures EncodeOptions(order, 0, Insert(opts, option))
         == EncodeOptions(order, 0, opts[..k]) + EncodeOption(order, option.number - Last(0, opts[..k]), option.value)
            + ([OptionHeader(opts[k].number - option.number, |opts[k].value|)]
               + Extension(order, opts[k].number - option.number) + BehindDelta(order, opts, k))
  {
    hide Extension, OptionHeader, OptionTail, EncodeOption, EncodeOptions, Chain, Last, Insert, InsertIndex,
         BehindDelta,
         OptionSize;
    var inserted := Insert(opts, option);
    AfterInsertion(opts, option);
    EncodeAt(order, inserted, k + 1);
    EncodeAppended(order, opts[..k], option);
    BehindBoth(order, opts, k, inserted, k + 1);
  }

  lemma {:induction false} BehindBoth(order: HostOrder, a: seq<CoapOption>, i: nat, b: seq<CoapOption>, j: nat)
    requires i < |a| && |a[i].value| <= MAX16 && Chain(a[i].number, a[i + 1..])
    requires j < |b| && a[i] == b[j] && a[i + 1..] == b[j + 1..]
    ensures BehindDelta(order, a, i) == BehindDelta(order, b, j)
  {
  }

  /** What a walk reads at the start of an encoding. */
  lemma {:induction false} FirstOfEncoding(order: HostOrder, prev: nat, opts: seq<CoapOption>, rest: seq<byte>)
    requires Chain(prev, opts) && opts != []
    ensures Chain(opts[0].number, opts[1..])
    ensures var s, size := EncodeOptions(order, prev, opts) + rest, OptionSize(opts[0].number - prev, |opts[0].value|);
            HeaderPresent(s) && s[0] != PAYLOAD_MARKER &&
            DeltaField(order, s) == ScannedDelta(order, s) == opts[0].number - prev &&
            LengthField(order, s) == ScannedLength(order, s) == |opts[0].value| &&
            ScannedSize(order, s) == size <= |EncodeOptions(order, prev, opts)| &&
            s[size - |opts[0].value|..size] == opts[0].value &&
            s[size..] == EncodeOptions(order, opts[0].number, opts[1..]) + rest
  {
    hide EncodeOption, DeltaField, LengthField, HeaderPresent, OptionSize, EncodeOptions;
    assert opts == [opts[0]] + opts[1..];
    EncodeCons(order, prev, opts[0], opts[1..], rest);
    EncodeCons(order, prev, opts[0], opts[1..], []);
    HeaderOfEncoding(order, opts[0].number - prev, opts[0].value,
                     EncodeOptions(order, opts[0].number, opts[1..]) + rest);
  }

  /** Where option `k` starts in an encoding. */
  function Start(order: HostOrder, opts: seq<CoapOption>, k: nat): nat
    requires Chain(0, opts) && k <= |opts|
  {
    ChainPrefix(opts, k);
    |EncodeOptions(order, 0, opts[..k])|
  }

  lemma {:induction false} ChainPrefix(opts: seq<CoapOption>, k: nat)
    requires Chain(0, opts) && k <= |opts|
    ensures Chain(0, opts[..k]) && Chain(Last(0, opts[..k]), opts[k..])
  {
    assert opts == opts[..k] + opts[k..];
    ChainSplit(0, opts[..k], opts[k..]);
  }

  lemma {:induction false} SuffixAt(order: HostOrder, opts: seq<CoapOption>, k: nat, rest: seq<byte>)
    requires Chain(0, opts) && k <= |opts|
    ensures Chain(Last(0, opts[..k]), opts[k..]) && Start(order, opts, k) <= |EncodeOptions(order, 0, opts)|
    ensures (EncodeOptions(order, 0, opts) + rest)[Start(order, opts, k)..]
         == EncodeOptions(order, Last(0, opts[..k]), opts[k..]) + rest
    ensures k == |opts| ==> Start(order, opts, k) == |EncodeOptions(order, 0, opts)|
  {
    hide EncodeOptions, Chain, Last;
    ChainPrefix(opts, k);
    assert opts == opts[..k] + opts[k..];
    EncodeConcat(order, 0, opts[..k], opts[k..]);
    var a, b := EncodeOptions(order, 0, opts[..k]), EncodeOptions(order, Last(0, opts[..k]), opts[k..]);
    assert (a + b + rest)[|a|..] == b + rest;
    assert k == |opts| ==> opts[..k] == opts;
  }

  lemma {:induction false} StartBounds(order: HostOrder, opts: seq<CoapOption>, k: nat)
    requires Chain(0, opts) && k <= |opts|
    ensures Start(order, opts, 0) == 0 && Start(order, opts, |opts|) == |EncodeOptions(order, 0, opts)|
    ensures Start(order, opts, k) <= |EncodeOptions(order, 0, opts)|
    ensures k < |opts| <==> Start(order, opts, k) < |EncodeOptions(order, 0, opts)|
  {
    SuffixAt(order, opts, k, []);
    SuffixAt(order, opts, |opts|, []);
    if k < |opts| {
      WalkStep(order, opts, k, []);
    }
  }

  lemma {:induction false} NextStart(order: HostOrder, opts: seq<CoapOption>, k: nat)
    requires Chain(0, opts) && k < |opts|
    ensures Last(0, opts[..k]) <= opts[k].number <= Last(0, opts[..k]) + MAX16 &&
            Last(0, opts[..k + 1]) == opts[k].number
    ensures opts[k..][0] == opts[k]
    ensures Start(order, opts, k + 1)
         == Start(order, opts, k) + OptionSize(opts[k].number - Last(0, opts[..k]), |opts[k].value|)
  {
    hide EncodeOption, EncodeOptions, Chain;
    ChainAt(opts, k);
    EncodeAppended(order, opts[..k], opts[k]);
    assert opts[..k + 1] == opts[..k] + [opts[k]];
  }

  /** One step of a walk over an encoding that `rest` follows: what is read at option `k`, and where `k + 1` starts. */
  lemma {:induction false} WalkStep(order: HostOrder, opts: seq<CoapOption>, k: nat, rest: seq<byte>)
    requires Chain(0, opts) && k < |opts|
    ensures Start(order, opts, k) < Start(order, opts, k + 1) <= |EncodeOptions(order, 0, opts)|
    ensures Last(0, opts[..k]) <= opts[k].number <= Last(0, opts[..k]) + MAX16 &&
            Last(0, opts[..k + 1]) == opts[k].number
    ensures var s := (EncodeOptions(order, 0, opts) + rest)[Start(order, opts, k)..];
            HeaderPresent(s) && s[0] != PAYLOAD_MARKER &&
            ScannedDelta(order, s) == opts[k].number - Last(0, opts[..k]) &&
              ScannedLength(order, s) == |opts[k].value| &&
            Start(order, opts, k + 1) == Start(order, opts, k) + ScannedSize(order, s) &&
            s[ScannedSize(order, s) - |opts[k].value|..ScannedSize(order, s)] == opts[k].value
  {
    hide EncodeOption, EncodeOptions, Chain, OptionSize, HeaderPresent, ScannedDelta, ScannedLength, ScannedSize,
         DeltaField, LengthField, Start;
    SuffixAt(order, opts, k, rest);
    SuffixAt(order, opts, k + 1, rest);
    NextStart(order, opts, k);
    FirstOfEncoding(order, Last(0, opts[..k]), opts[k..], rest);
  }

  /** An addition that lands behind every option, whether by the hint or at the end of the walk. */
  predicate Appends(opts: seq<CoapOption>, hint: nat, number: nat) {
    number >= hint || opts == [] || InsertIndex(opts, number) == |opts|
  }

  /** The option number that the appended delta is relative to. */
  function AppendBase(opts: seq<CoapOption>, hint: nat, number: nat): nat {
    if number >= hint || opts == [] then hint else Last(0, opts)
  }

  /** The delta that an added option is written with. */
  function DeltaOf(opts: seq<CoapOption>, hint: nat, number: nat): (delta: uint16) {
    var base := if Appends(opts, hint, number) then AppendBase(opts, hint, number)
                else Last(0, opts[..InsertIndex(opts, number)]);
    (number - base) % 0x1_0000
  }

  lemma {:induction false} AppendOutcome(order: HostOrder, opts: seq<CoapOption>, hint: uint16, option: CoapOption)
    requires Small(opts) && option.number <= MAX16 && |option.value| <= MAX16 && Appends(opts, hint, option.number)
    ensures var outcome, delta := AddOutcome(opts, hint, option),
                                  (option.number - AppendBase(opts, hint, option.number)) % 0x1_0000;
            Chain(0, outcome) && outcome == opts + [CoapOption(Last(0, opts) + delta, option.value)] &&
            EncodeOptions(order, 0, outcome) == EncodeOptions(order, 0, opts) + EncodeOption(order, delta, option.value)
  {
    hide EncodeOption, EncodeOptions, Chain, AddOutcome, AppendBase, Appends, Last, Small;
    var delta := (option.number - AppendBase(opts, hint, option.number)) % 0x1_0000;
    StartOf(opts);
    AppendedIs(opts, hint, option);
    EncodeAppended(order, opts, CoapOption(Last(0, opts) + delta, option.value));
  }

  lemma {:induction false} AppendedIs(opts: seq<CoapOption>, hint: uint16, option: CoapOption)
    requires Small(opts) && option.number <= MAX16 && Appends(opts, hint, option.number)
    ensures var delta := (option.number - AppendBase(opts, hint, option.number)) % 0x1_0000;
            AddOutcome(opts, hint, option) == opts + [CoapOption(Last(0, opts) + delta, option.value)]
  {
    hide Chain, Insert, InsertIndex;
    if option.number < hint && opts != [] {
      AroundInsertion(opts, option);
      assert opts[..|opts|] == opts && opts[|opts|..] == [];
      InsertSplit(opts, option);
    }
  }

  lemma {:induction false} OutcomeChain(opts: seq<CoapOption>, hint: uint16, option: CoapOption)
    requires Small(opts) && option.number <= MAX16 && |option.value| <= MAX16
    ensures Chain(0, AddOutcome(opts, hint, option))
  {
    if Appends(opts, hint, option.number) {
      AppendOutcome(BigEndian, opts, hint, option);
    } else {
      InsertKeepsChain(opts, option);
    }
  }

  /** The length of the option area after an addition. */
  ghost function OutcomeLength(order: HostOrder, opts: seq<CoapOption>, hint: uint16, option: CoapOption): nat
    requires Small(opts) && option.number <= MAX16 && |option.value| <= MAX16
  {
    OutcomeChain(opts, hint, option);
    |EncodeOptions(order, 0, AddOutcome(opts, hint, option))|
  }

  lemma {:induction false} InsertedLength(order: HostOrder, opts: seq<CoapOption>, option: CoapOption)
    requires Small(opts) && option.number <= MAX16 && |option.value| <= MAX16
    requires InsertIndex(opts, option.number) < |opts|
    ensures var k := InsertIndex(opts, option.number);
            var base, next := Last(0, opts[..k]), opts[k].number;
            base <= option.number <= next && Chain(0, Insert(opts, option)) &&
            |EncodeOptions(order, 0, Insert(opts, option))|
              == |EncodeOptions(order, 0, opts)| + OptionSize(option.number - base, |option.value|)
                 + Extra(next - option.number) - Extra(next - base)
  {
    hide EncodeOptions, Chain, OptionHeader, Insert, InsertIndex, Last, BehindDelta;
    var k := InsertIndex(opts, option.number);
    InsertionBounds(opts, option);
    EncodeInserted(order, opts, option, k);
    EncodeAt(order, opts, k);
  }

  // ----- Byte order on the wire

  /** RFC 7252 wants extension bytes in network byte order. An option is written that way exactly when the
      host is big-endian, or no field of the option has two extension bytes that differ. */
  lemma {:induction false} WireOrderIff(order: HostOrder, delta: nat, value: seq<byte>)
    requires delta <= MAX16 && |value| <= MAX16
    ensures EncodeOption(order, delta, value) == EncodeOption(BigEndian, delta, value)
       <==> order == BigEndian || (SwapProof(delta) && SwapProof(|value|))
  {
    hide Extension, OptionHeader, Extra, SwapProof;
    ExtensionOrderIff(order, delta);
    ExtensionOrderIff(order, |value|);
    PartsEqualIff(OptionHeader(delta, |value|), Extension(order, delta), Extension(order, |value|),
                  Extension(BigEndian, delta), Extension(BigEndian, |value|), value);
  }

  predicate SwapProof(n: nat) {
    n < 269 || (n - 269) / 0x100 == (n - 269) % 0x100
  }

  lemma {:induction false} ExtensionOrderIff(order: HostOrder, n: nat)
    requires n <= MAX16
    ensures Extension(order, n) == Extension(BigEndian, n) <==> order == BigEndian || SwapProof(n)
  {
    if n >= 269 {
      assert Extension(order, n)[0] == Htons(order, n - 269) / 0x100;
      assert Extension(BigEndian, n)[0] == (n - 269) / 0x100;
    }
  }
}
