/** Parsing what was printed: which values come back, and what the others turn into. */
module JsonRoundTrip {
  import opened JsonText
  import opened JsonParser

  /** Text that cannot be taken for the continuation of a number. */
  predicate EndsNumber(rest: string) {
    rest == [] || !IsNumberChar(rest[0])
  }

  // ----- Strings

  /** Reading an escaped string back, from position `i` on. */
  lemma {:induction false} StringRoundTrip(s: string, i: nat, rest: string)
    requires i <= |s|
    ensures ParseString(Escaped(s, i) + rest, s[..i])
         == if ReadableString(s[i..]) then Parsed(Str(s), rest) else Failed
    decreases |s| - i
  {
    hide Escape, ParseString, NeedsUnicodeEscape, ReadableString;
    if i == |s| {
      assert s[..i] == s;
      ReadQuote(s, rest);
      NothingToRead(s);
    } else {
      var tail := Escaped(s, i + 1) + rest;
      assert Escaped(s, i) + rest == Escape(s[i]) + tail;
      assert s[..i + 1] == s[..i] + [s[i]];
      ReadableFrom(s, i);
      StringRoundTrip(s, i + 1, rest);
      ReadEscape(s[i], tail, s[..i]);
    }
  }

  lemma {:induction false} ReadQuote(s: string, rest: string)
    ensures ParseString(Escaped(s, |s|) + rest, s) == Parsed(Str(s), rest)
  {
    assert (Escaped(s, |s|) + rest)[1..] == rest;
  }

  lemma {:induction false} NothingToRead(s: string)
    ensures ReadableString(s[|s|..])
  {
  }

  lemma {:induction false} ReadableFrom(s: string, i: nat)
    requires i < |s|
    ensures ReadableString(s[i..]) <==> !NeedsUnicodeEscape(s[i]) && ReadableString(s[i + 1..])
  {
    hide NeedsUnicodeEscape;
    assert s[i..] == [s[i]] + s[i + 1..];
  }

  lemma {:induction false} ReadEscape(c: char, tail: string, acc: string)
    ensures ParseString(Escape(c) + tail, acc) == if NeedsUnicodeEscape(c) then Failed else ParseString(tail, acc + [c])
  {
    var s := Escape(c) + tail;
    if |Escape(c)| == 2 {
      assert s[2..] == tail;
    } else if |Escape(c)| == 1 {
      assert s[1..] == tail;
    } else {
      assert s[0] == '\\' && s[1] == 'u';
    }
  }

  // ----- Integers

  lemma {:induction false} DecimalRoundTrip(n: nat)
    ensures AllDigits(Decimal(n)) && Decimal(n) != [] && DecimalValue(Decimal(n)) == n
  {
    if n >= 10 {
      DecimalRoundTrip(n / 10);
      assert Decimal(n)[..|Decimal(n)| - 1] == Decimal(n / 10);
    }
  }

  lemma {:induction false} IntRoundTrip(n: int, rest: string)
    requires -99_999_999 <= n <= 999_999_999 && EndsNumber(rest)
    ensures IntText(n) != [] && (IsDigit(IntText(n)[0]) || IntText(n)[0] == '-')
    ensures ParseNumber(IntText(n) + rest) == Parsed(Int(n), rest)
  {
    hide Decimal, DecimalValue, StrtodConvertsAll, IsDouble, IntegerPart, NumberRun;
    var digits := Decimal(if n < 0 then -n else n);
    DecimalRoundTrip(if n < 0 then -n else n);
    var text := IntText(n);
    assert n < 0 ==> text[1..] == digits;
    assert forall i :: 0 <= i < |text| ==> IsNumberChar(text[i]);
    RunEnds(text, rest);
    IntTextConverts(n);
  }

  lemma {:induction false} SkipAllDigits(digits: string, rest: string)
    requires AllDigits(digits) && (rest == [] || !IsDigit(rest[0]))
    ensures SkipDigits(digits + rest) == rest
  {
    if digits == [] {
      assert digits + rest == rest;
    } else {
      var s := digits + rest;
      assert s[0] == digits[0];
      assert s[1..] == digits[1..] + rest;
      SkipAllDigits(digits[1..], rest);
    }
  }

  lemma {:induction false} LeadingAre(digits: string, rest: string)
    requires AllDigits(digits) && (rest == [] || !IsDigit(rest[0]))
    ensures SkipDigits(digits + rest) == rest && LeadingDigits(digits + rest) == digits
  {
    hide SkipDigits;
    SkipAllDigits(digits, rest);
    var s := digits + rest;
    assert s[..|s| - |rest|] == digits;
  }

  lemma {:induction false} NoExponent(n: nat)
    ensures Scaled(n, []) == n
  {
    hide AddZeros, DropDigits;
    NoPower(n);
  }

  lemma {:induction false} NoPower(n: nat)
    ensures DecimalValue(LeadingDigits(SkipSign([]))) == 0 && AddZeros(n, 0) == n
  {
    assert SkipDigits([]) == [] && DecimalValue([]) == 0;
  }

  lemma {:induction false} IntTextConverts(n: int)
    ensures StrtodConvertsAll(IntText(n)) && !IsDouble(IntText(n)) && IntegerPart(IntText(n)) == n
  {
    hide Decimal, DecimalValue, SkipDigits, Scaled;
    var text, digits := IntText(n), Decimal(if n < 0 then -n else n);
    DecimalRoundTrip(if n < 0 then -n else n);
    SkipAllDigits(digits, []);
    assert digits + [] == digits;
    assert n < 0 ==> text[1..] == digits;
    assert SkipSign(text) == digits && digits[..|digits|] == digits;
    NoExponent(DecimalValue(digits));
  }

  // ----- A capital exponent

  /** Digits with an exponent, a negative one if `down`. */
  function WithExponent(digits: string, down: bool, exponent: string): string {
    digits + ExponentPart(down, exponent)
  }

  function ExponentPart(down: bool, exponent: string): (s: string)
    ensures s != [] && s[0] == 'E' && s[1..] == (if down then ['-'] else []) + exponent
  {
    ['E'] + ((if down then ['-'] else []) + exponent)
  }

  /** What such a number amounts to, rounded towards zero. */
  function Power(digits: string, down: bool, exponent: string): nat
    requires AllDigits(digits) && AllDigits(exponent)
  {
    var n, power := DecimalValue(digits), DecimalValue(exponent);
    if down then DropDigits(n, power) else AddZeros(n, power)
  }

  /** That is what the digits with so many zeros behind them say, or the digits without so many of the last. */
  lemma {:induction false} PowerIsDigits(digits: string, down: bool, exponent: string)
    requires AllDigits(digits) && AllDigits(exponent)
    ensures var power := DecimalValue(exponent);
            !down ==> AllDigits(digits + Zeros(power)) &&
                      Power(digits, down, exponent) == DecimalValue(digits + Zeros(power))
    ensures var power := DecimalValue(exponent);
            down ==> Power(digits, down, exponent)
                     == if power <= |digits| then DecimalValue(digits[..|digits| - power]) else 0
  {
    hide DecimalValue, AddZeros, DropDigits;
    ZerosBehind(digits, DecimalValue(exponent));
    DigitsDropped(digits, DecimalValue(exponent));
  }

  function Zeros(n: nat): (zeros: string)
    ensures |zeros| == n && AllDigits(zeros)
  {
    seq(n, i => '0')
  }

  lemma {:induction false} ZerosBehind(digits: string, power: nat)
    requires AllDigits(digits)
    ensures AllDigits(digits + Zeros(power))
    ensures DecimalValue(digits + Zeros(power)) == AddZeros(DecimalValue(digits), power)
  {
    if power == 0 {
      assert digits + Zeros(power) == digits;
    } else {
      ZerosBehind(digits, power - 1);
      var s := digits + Zeros(power);
      assert s[..|s| - 1] == digits + Zeros(power - 1);
    }
  }

  lemma {:induction false} DigitsDropped(digits: string, power: nat)
    requires AllDigits(digits)
    ensures DropDigits(DecimalValue(digits), power)
         == if power <= |digits| then DecimalValue(digits[..|digits| - power]) else 0
    decreases power
  {
    if power == 0 {
      assert digits[..|digits|] == digits;
    } else if digits == [] {
      DigitsDropped(digits, power - 1);
      assert digits[..0] == [];
    } else {
      var init := digits[..|digits| - 1];
      assert DecimalValue(digits) / 10 == DecimalValue(init);
      DigitsDropped(init, power - 1);
      assert power <= |digits| ==> init[..|init| - (power - 1)] == digits[..|digits| - power];
    }
  }

  lemma {:induction false} ExponentPower(down: bool, exponent: string)
    requires AllDigits(exponent) && exponent != []
    ensures var e := ExponentPart(down, exponent)[1..];
            e != [] && (e[0] == '-' <==> down) && SkipSign(e) == exponent && SkipDigits(exponent) == [] &&
            LeadingDigits(exponent) == exponent
  {
    hide SkipDigits, LeadingDigits;
    LeadingAre(exponent, []);
    assert exponent + [] == exponent;
    assert IsDigit(exponent[0]);
  }

  /** The parts that the conversion finds. */
  lemma {:induction false} ExponentParts(digits: string, down: bool, exponent: string)
    requires AllDigits(digits) && digits != [] && AllDigits(exponent) && exponent != []
    ensures var s, part := WithExponent(digits, down, exponent), ExponentPart(down, exponent);
            |s| == |digits| + |part| && IsDigit(s[0]) && SkipSign(s) == s && SkipDigits(s) == part &&
            LeadingDigits(s) == digits
  {
    hide SkipDigits, LeadingDigits, ExponentPart;
    LeadingAre(digits, ExponentPart(down, exponent));
    assert WithExponent(digits, down, exponent)[0] == digits[0];
  }

  lemma {:induction false} ExponentConverts(digits: string, down: bool, exponent: string)
    requires AllDigits(digits) && digits != [] && AllDigits(exponent) && exponent != []
    ensures StrtodConvertsAll(WithExponent(digits, down, exponent)) && !IsDouble(WithExponent(digits, down, exponent))
  {
    hide SkipDigits, LeadingDigits, ExponentPart, WithExponent, IsDouble, SkipSign, AllDigits, IsDigit;
    ExponentPower(down, exponent);
    ExponentParts(digits, down, exponent);
    ExponentRun(digits, down, exponent);
  }

  lemma {:induction false} ExponentValue(digits: string, down: bool, exponent: string)
    requires AllDigits(digits) && digits != [] && AllDigits(exponent) && exponent != []
    requires StrtodConvertsAll(WithExponent(digits, down, exponent)) && !IsDouble(WithExponent(digits, down, exponent))
    ensures IntegerPart(WithExponent(digits, down, exponent)) == Power(digits, down, exponent)
  {
    hide SkipDigits, LeadingDigits, DecimalValue, AddZeros, DropDigits, ExponentPart, WithExponent, IsDouble,
         SkipSign, AllDigits, StrtodConvertsAll;
    ExponentPower(down, exponent);
    ExponentParts(digits, down, exponent);
  }

  lemma {:induction false} ExponentRun(digits: string, down: bool, exponent: string)
    requires AllDigits(digits) && AllDigits(exponent)
    ensures var s := WithExponent(digits, down, exponent);
            !IsDouble(s) && forall i :: 0 <= i < |s| ==> IsNumberChar(s[i])
  {
    var s, part := WithExponent(digits, down, exponent), ExponentPart(down, exponent);
    forall i | 0 <= i < |s|
      ensures IsDigit(s[i]) || s[i] == 'E' || s[i] == '-'
    {
      if i > |digits| {
        assert s[i] == part[1..][i - |digits| - 1];
      }
    }
  }

  lemma {:induction false} RunEnds(text: string, rest: string)
    requires EndsNumber(rest) && forall i :: 0 <= i < |text| ==> IsNumberChar(text[i])
    ensures NumberRun(text + rest) == |text| && (text + rest)[..|text|] == text && (text + rest)[|text|..] == rest
  {
    hide NumberRun, IsNumberChar;
    var s := text + rest;
    assert forall i :: 0 <= i < |text| ==> s[i] == text[i];
    assert rest != [] ==> s[|text|] == rest[0];
  }

  /** Digits with a capital exponent make an integer, unless that is too large: `1E2` is one hundred. */
  lemma {:induction false} CapitalExponent(digits: string, down: bool, exponent: string, rest: string)
    requires AllDigits(digits) && digits != [] && AllDigits(exponent) && exponent != [] && EndsNumber(rest)
    ensures var text, n := WithExponent(digits, down, exponent), Power(digits, down, exponent);
            ParseNumber(text + rest) == Parsed(if n < 0x8000_0000 then Int(n) else Real(text), rest)
  {
    hide StrtodConvertsAll, IntegerPart, IsDouble, NumberRun, Power, WithExponent;
    ExponentConverts(digits, down, exponent);
    ExponentValue(digits, down, exponent);
    ExponentRun(digits, down, exponent);
    RunEnds(WithExponent(digits, down, exponent), rest);
  }

  // ----- Values

  /** What parsing gives on the text of a value: the value with its empty containers gone, or a failure. */
  function Reread(v: Json, rest: string): Parsed {
    if Readable(v) then Parsed(Collapse(v), rest) else Failed
  }

  lemma {:induction false} IntTextStart(n: int)
    ensures IntText(n) != [] && (IsDigit(IntText(n)[0]) || IntText(n)[0] == '-')
  {
    hide Decimal, DecimalValue;
    DecimalRoundTrip(if n < 0 then -n else n);
  }

  /** The text of a value starts with a character that is neither white space nor a closing bracket. */
  lemma {:induction false} TextStart(v: Json)
    requires Printable(v)
    ensures Text(v) != [] && !IsSpace(Text(v)[0]) && Text(v)[0] != ']' && Text(v)[0] != '}'
  {
    if v.Int? {
      IntTextStart(v.n);
    }
  }

  /** Parsing the text of a printable value, whatever follows it, gives back what can be read of the value and stops
      exactly behind the text. */
  lemma {:induction false} ValueRoundTrip(v: Json, rest: string)
    requires Printable(v) && EndsNumber(rest)
    ensures ParseValue(Text(v) + rest) == Reread(v, rest)
    decreases v
  {
    hide ParseElems, ParseMembers, ParseString, ParseNumber, ElemsText, MembersText, Escaped, CollapseElems,
         CollapseMembers,
         Literal, Expects, Behind;
    TextStart(v);
    var s := Text(v) + rest;
    assert SkipSpace(s) == s;
    match v
    case Null => LiteralRoundTrip(s, "null", "ull", Null, rest);
    case Bool(b) => LiteralRoundTrip(s, if b then "true" else "false", if b then "rue" else "alse", v, rest);
    case Int(n) => IntRoundTrip(n, rest);
    case Str(str) =>
      assert s[1..] == Escaped(str, 0) + rest;
      StringRoundTrip(str, 0, rest);
      assert str[0..] == str;
    case Arr(elems) => ArrayValue(elems, rest);
    case Obj(members) => ObjectValue(members, rest);
  }

  lemma {:induction false} ArrayValue(elems: seq<Json>, rest: string)
    requires Printable(Arr(elems))
    ensures ParseValue(Text(Arr(elems)) + rest) == Reread(Arr(elems), rest)
    decreases elems, |elems| + 2
  {
    hide ParseElems, ParseMembers, ParseString, ParseNumber, ElemsText, CollapseElems, Literal, Expects, Behind;
    var s := Text(Arr(elems)) + rest;
    assert SkipSpace(s) == s && s[1..] == ElemsText(elems, 0) + rest;
    ArrayRoundTrip(elems, rest);
  }

  lemma {:induction false} ObjectValue(members: seq<Member>, rest: string)
    requires Printable(Obj(members))
    ensures ParseValue(Text(Obj(members)) + rest) == Reread(Obj(members), rest)
    decreases members, |members| + 2
  {
    hide ParseElems, ParseMembers, ParseString, ParseNumber, MembersText, CollapseMembers, Literal, Expects, Behind;
    var s := Text(Obj(members)) + rest;
    assert SkipSpace(s) == s && s[1..] == MembersText(members, 0) + rest;
    ObjectRoundTrip(members, rest);
  }

  lemma {:induction false} ArrayRoundTrip(elems: seq<Json>, rest: string)
    requires |elems| <= NB_TOKEN && forall e :: e in elems ==> Printable(e)
    ensures var s := ElemsText(elems, 0) + rest;
            if elems == [] then Expects(s, ']') && Behind(s) == rest
            else !Expects(s, ']') &&
                 ParseElems(s, [])
                   == if forall e :: e in elems ==> Readable(e) then Parsed(Arr(CollapseElems(elems)), rest)
                                      else Failed
    decreases elems, |elems| + 1
  {
    if elems == [] {
      assert SkipSpace("]" + rest) == "]" + rest;
    } else {
      hide ParseElems, SkipSpace;
      assert "" + Text(elems[0]) == Text(elems[0]);
      assert elems[..0] == [] && CollapseElems([]) == [];
      ElemsRoundTrip(elems, 0, rest);
    }
  }

  lemma {:induction false} ObjectRoundTrip(members: seq<Member>, rest: string)
    requires |members| <= NB_TOKEN && DistinctNames(members) && forall m :: m in members ==> Printable(m.value)
    ensures var s := MembersText(members, 0) + rest;
            if members == [] then Expects(s, '}') && Behind(s) == rest
            else !Expects(s, '}') &&
                 ParseMembers(s, []) == if forall m :: m in members ==> ReadableString(m.name) && Readable(m.value)
                                        then Parsed(Obj(CollapseMembers(members)), rest) else Failed
    decreases members, |members| + 1
  {
    if members == [] {
      assert SkipSpace("}" + rest) == "}" + rest;
    } else {
      hide ParseMembers, SkipSpace;
      assert "" + MemberText(members[0]) == MemberText(members[0]);
      assert members[..0] == [] && CollapseMembers([]) == [];
      MembersRoundTrip(members, 0, rest);
    }
  }

  lemma {:induction false} LiteralRoundTrip(s: string, text: string, pattern: string, v: Json, rest: string)
    requires s == text + rest && text != [] && pattern == text[1..]
    ensures s[1..] == pattern + rest && Literal(s[1..], pattern, v) == Parsed(v, rest)
  {
    assert s[1..] == pattern + rest;
    assert s[1..][|pattern|..] == rest;
  }

  lemma {:induction false} ElemsRoundTrip(elems: seq<Json>, i: nat, rest: string)
    requires i < |elems| <= NB_TOKEN && forall e :: e in elems ==> Printable(e)
    ensures !Expects(Text(elems[i]) + ElemsText(elems, i + 1) + rest, ']')
    ensures ParseElems(Text(elems[i]) + ElemsText(elems, i + 1) + rest, CollapseElems(elems[..i]))
         == if forall j :: i <= j < |elems| ==> Readable(elems[j]) then Parsed(Arr(CollapseElems(elems)), rest)
           else Failed
    decreases elems, |elems| - i
  {
    hide ParseValue, ParseElems, StoreElem, Text, ElemsText, CollapseElems, SkipSpace, Expects, Behind, Readable,
         Collapse, Printable;
    var v, tail := elems[i], ElemsText(elems, i + 1) + rest;
    assert Text(v) + ElemsText(elems, i + 1) + rest == Text(v) + tail;
    ElemsTail(elems, i + 1, rest);
    ValueRoundTrip(v, tail);
    ElemStep(v, tail, CollapseElems(elems[..i]));
    ElemStored(elems, i);
    if i + 1 == |elems| {
      assert elems[..i + 1] == elems;
    } else {
      ElemsRoundTrip(elems, i + 1, rest);
    }
  }

  /** Reading one element; what happens then depends on the text behind it. */
  lemma {:induction false} ElemStep(v: Json, tail: string, acc: seq<Json>)
    requires Printable(v) && ParseValue(Text(v) + tail) == Reread(v, tail)
    ensures !Expects(Text(v) + tail, ']')
    ensures ParseElems(Text(v) + tail, acc)
         == if !Readable(v) then Failed
            else
              var acc' := StoreElem(acc, Collapse(v));
              if Expects(tail, ',') then ParseElems(Behind(tail), acc')
              else if Expects(tail, ']') then Parsed(Arr(acc'), Behind(tail)) else Failed
  {
    hide StoreElem, ParseValue, Text, Printable, Readable, Collapse;
    TextStart(v);
    assert SkipSpace(Text(v) + tail) == Text(v) + tail;
  }

  lemma {:induction false} ElemsTail(elems: seq<Json>, k: nat, rest: string)
    requires 0 < k <= |elems| && forall e :: e in elems ==> Printable(e)
    ensures var tail := ElemsText(elems, k) + rest;
            EndsNumber(tail) &&
            if k == |elems| then !Expects(tail, ',') && Expects(tail, ']') && Behind(tail) == rest
            else Expects(tail, ',') && Behind(tail) == Text(elems[k]) + ElemsText(elems, k + 1) + rest
  {
    hide Text, Printable;
    var tail := ElemsText(elems, k) + rest;
    assert SkipSpace(tail) == tail;
  }

  lemma {:induction false} ElemStored(elems: seq<Json>, i: nat)
    requires i < |elems| <= NB_TOKEN
    ensures CollapseElems(elems[..i + 1]) == StoreElem(CollapseElems(elems[..i]), Collapse(elems[i]))
  {
  }

  /** Reading one name, colon and value; what happens then depends on the text behind them. */
  lemma {:induction false} MemberStep(m: Member, tail: string, acc: seq<Member>)
    requires Printable(m.value) && ParseValue(Text(m.value) + tail) == Reread(m.value, tail)
    ensures !Expects(MemberText(m) + tail, '}')
    ensures ParseMembers(MemberText(m) + tail, acc)
         == if !ReadableString(m.name) || !Readable(m.value) then Failed
            else
              var acc' := StoreMember(acc, m.name, Collapse(m.value));
              if Expects(tail, ',') then ParseMembers(Behind(tail), acc')
              else if Expects(tail, '}') then Parsed(Obj(acc'), Behind(tail)) else Failed
  {
    hide StoreMember, Escaped, ParseString, ParseValue, Text;
    var s, afterKey := MemberText(m) + tail, ":" + (Text(m.value) + tail);
    assert s == "\"" + (Escaped(m.name, 0) + afterKey);
    assert SkipSpace(s) == s && s[1..] == Escaped(m.name, 0) + afterKey;
    StringRoundTrip(m.name, 0, afterKey);
    assert m.name[0..] == m.name && m.name[..0] == "";
    assert SkipSpace(afterKey) == afterKey && afterKey[1..] == Text(m.value) + tail;
  }

  lemma {:induction false} MembersTail(members: seq<Member>, k: nat, rest: string)
    requires 0 < k <= |members| && forall m :: m in members ==> Printable(m.value)
    ensures var tail := MembersText(members, k) + rest;
            EndsNumber(tail) &&
            if k == |members| then !Expects(tail, ',') && Expects(tail, '}') && Behind(tail) == rest
            else Expects(tail, ',') && Behind(tail) == MemberText(members[k]) + MembersText(members, k + 1) + rest
  {
    hide MemberText, Printable;
    var tail := MembersText(members, k) + rest;
    assert SkipSpace(tail) == tail;
  }

  lemma {:induction false} MembersRoundTrip(members: seq<Member>, i: nat, rest: string)
    requires i < |members| <= NB_TOKEN && DistinctNames(members) && forall m :: m in members ==> Printable(m.value)
    ensures !Expects(MemberText(members[i]) + MembersText(members, i + 1) + rest, '}')
    ensures ParseMembers(MemberText(members[i]) + MembersText(members, i + 1) + rest, CollapseMembers(members[..i]))
         == if forall j :: i <= j < |members| ==> ReadableString(members[j].name) && Readable(members[j].value)
            then Parsed(Obj(CollapseMembers(members)), rest) else Failed
    decreases members, |members| - i
  {
    hide ParseValue, ParseMembers, StoreMember, Text, MemberText, MembersText, CollapseMembers, SkipSpace, Expects,
         Behind, ReadableString;
    var m, tail := members[i], MembersText(members, i + 1) + rest;
    assert MemberText(m) + MembersText(members, i + 1) + rest == MemberText(m) + tail;
    MembersTail(members, i + 1, rest);
    ValueRoundTrip(m.value, tail);
    MemberStep(m, tail, CollapseMembers(members[..i]));
    MemberStored(members, i);
    if i + 1 == |members| {
      assert members[..i + 1] == members;
    } else {
      MembersRoundTrip(members, i + 1, rest);
    }
  }

  lemma {:induction false} MemberStored(members: seq<Member>, i: nat)
    requires i < |members| <= NB_TOKEN && DistinctNames(members)
    ensures CollapseMembers(members[..i + 1])
         == StoreMember(CollapseMembers(members[..i]), members[i].name, Collapse(members[i].value))
  {
  }

  /** A printable value survives printing and parsing exactly when it needs no `\u` and has no empty container. */
  lemma {:induction false} RoundTripIff(v: Json)
    requires Printable(v)
    ensures ParseValue(Text(v)) == Parsed(v, "") <==> Readable(v) && NoEmptyContainer(v)
  {
    ValueRoundTrip(v, "");
    assert Text(v) + "" == Text(v);
    CollapseIsIdentityIff(v);
  }
}
