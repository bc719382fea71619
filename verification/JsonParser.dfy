/** What the recursive-descent parser computes, as functions of the text that remains to be read. */
module JsonParser {
  import opened JsonText

  /** A parsed value and the text behind it. */
  datatype Parsed = Parsed(value: Json, rest: string) | Failed

  predicate IsSpace(c: char) {
    c == ' ' || c == '\t' || c == '\n' || c == '\r'
  }

  function SkipSpace(s: string): (t: string)
    ensures |t| <= |s|
  {
    if s != [] && IsSpace(s[0]) then SkipSpace(s[1..]) else s
  }

  /** The next character behind white space is `c`. */
  predicate Expects(s: string, c: char) {
    var t := SkipSpace(s);
    t != [] && t[0] == c
  }

  function Behind(s: string): (t: string)
    requires SkipSpace(s) != []
    ensures |t| < |s|
  {
    SkipSpace(s)[1..]
  }

  lemma {:induction false} SkipTwice(s: string)
    ensures SkipSpace(SkipSpace(s)) == SkipSpace(s)
  {
    if s != [] && IsSpace(s[0]) {
      SkipTwice(s[1..]);
    }
  }

  // ----- Numbers

  predicate IsNumberChar(c: char) {
    IsDigit(c) || c == '+' || c == '-' || c == '.' || c == 'e' || c == 'E'
  }

  function NumberRun(s: string): (n: nat)
    ensures n <= |s| && (forall i :: 0 <= i < n ==> IsNumberChar(s[i])) && (n < |s| ==> !IsNumberChar(s[n]))
  {
    if s != [] && IsNumberChar(s[0]) then 1 + NumberRun(s[1..]) else 0
  }

  predicate AllDigits(s: string) {
    forall i :: 0 <= i < |s| ==> IsDigit(s[i])
  }

  function DecimalValue(s: string): nat
    requires AllDigits(s)
  {
    if s == [] then 0 else 10 * DecimalValue(s[..|s| - 1]) + (s[|s| - 1] as int - '0' as int)
  }

  function SkipDigits(s: string): (t: string)
    ensures |t| <= |s| && AllDigits(s[..|s| - |t|]) && t == s[|s| - |t|..] && (t != [] ==> !IsDigit(t[0]))
  {
    if s != [] && IsDigit(s[0]) then SkipDigits(s[1..]) else s
  }

  function SkipSign(s: string): string {
    if s != [] && (s[0] == '+' || s[0] == '-') then s[1..] else s
  }

  /** `strtod` converts the whole text: a sign, digits with at most one point, and maybe a complete exponent. */
  predicate StrtodConvertsAll(s: string) {
    var t := SkipSign(s);
    var u := SkipDigits(t);
    var w := if u != [] && u[0] == '.' then SkipDigits(u[1..]) else u;
    var digits := |t| - |w| - (if u != [] && u[0] == '.' then 1 else 0);
    digits > 0 &&
    (w == [] || ((w[0] == 'e' || w[0] == 'E') &&
                 var exponent := SkipSign(w[1..]);
                 exponent != [] && SkipDigits(exponent) == []))
  }

  /** The text is kept as a double; a capital `E` alone does not make it one. */
  predicate IsDouble(text: string) {
    '.' in text || 'e' in text || '+' in text
  }

  /** The integer part of a number without a point: its digits, times the power of ten of a capital exponent. */
  function IntegerPart(text: string): int
    requires StrtodConvertsAll(text) && !IsDouble(text)
  {
    var t := SkipSign(text);
    var u := SkipDigits(t);
    var size := Scaled(DecimalValue(LeadingDigits(t)), if u == [] then [] else u[1..]);
    if text[0] == '-' then 0 - size else size
  }

  function LeadingDigits(s: string): (digits: string)
    ensures AllDigits(digits)
  {
    s[..|s| - |SkipDigits(s)|]
  }

  function Scaled(n: nat, exponent: string): nat {
    var power := DecimalValue(LeadingDigits(SkipSign(exponent)));
    if exponent != [] && exponent[0] == '-' then DropDigits(n, power) else AddZeros(n, power)
  }

  function AddZeros(n: nat, power: nat): nat {
    if power == 0 then n else 10 * AddZeros(n, power - 1)
  }

  function DropDigits(n: nat, power: nat): nat
    decreases power
  {
    if power == 0 then n else DropDigits(n / 10, power - 1)
  }

  function ParseNumber(s: string): Parsed {
    var n := NumberRun(s);
    var text := s[..n];
    if !StrtodConvertsAll(text) then Failed else Parsed(NumberValue(text), s[n..])
  }

  /** A number outside the range of an `int` keeps its text as well: what its conversion gives is undefined. */
  function NumberValue(text: string): Json
    requires StrtodConvertsAll(text)
  {
    if IsDouble(text) then Real(text)
    else if -0x8000_0000 <= IntegerPart(text) < 0x8000_0000 then Int(IntegerPart(text))
    else Real(text)
  }

  // ----- Strings

  /** The character that a backslash and `c` stand for; the parser knows no other escape. */
  function Unescape(c: char): (r: seq<char>)
    ensures |r| <= 1
  {
    if c == '"' || c == '\\' || c == '/' then [c]
    else if c == 'b' then "\U{8}"
    else if c == 'f' then "\U{C}"
    else if c == 'n' then "\n"
    else if c == 'r' then "\r"
    else if c == 't' then "\t"
    else []
  }

  /** Behind the opening quote, with `acc` already collected. */
  function ParseString(s: string, acc: string): (p: Parsed)
    ensures p.Parsed? ==> p.value.Str? && |p.rest| < |s|
  {
    if s == [] || s[0] < ' ' then Failed
    else if s[0] == '"' then Parsed(Str(acc), s[1..])
    else if s[0] == '\\' then
      if |s| < 2 || Unescape(s[1]) == [] then Failed else ParseString(s[2..], acc + Unescape(s[1]))
    else ParseString(s[1..], acc + [s[0]])
  }

  // ----- Values

  function Literal(s: string, pattern: string, value: Json): (p: Parsed)
    ensures p.Parsed? ==> |p.rest| <= |s|
  {
    if pattern <= s then Parsed(value, s[|pattern|..]) else Failed
  }

  function ParseValue(s: string): (p: Parsed)
    ensures p.Parsed? ==> |p.rest| < |s|
    decreases |s|, 0
  {
    var t := SkipSpace(s);
    if t == [] then Failed
    else if t[0] == 'n' then Literal(t[1..], "ull", Null)
    else if t[0] == 'f' then Literal(t[1..], "alse", Bool(false))
    else if t[0] == 't' then Literal(t[1..], "rue", Bool(true))
    else if t[0] == '"' then ParseString(t[1..], "")
    else if t[0] == '[' then
      if Expects(t[1..], ']') then Parsed(Null, Behind(t[1..])) else ParseElems(t[1..], [])
    else if t[0] == '{' then
      if Expects(t[1..], '}') then Parsed(Null, Behind(t[1..])) else ParseMembers(t[1..], [])
    else if IsDigit(t[0]) || t[0] == '-' then ParseNumber(t)
    else Failed
  }

  /** An element behind the last one is stored while there is room, and otherwise thrown away. */
  function StoreElem(elems: seq<Json>, v: Json): seq<Json> {
    if |elems| < NB_TOKEN then elems + [v] else elems
  }

  function ParseElems(s: string, elems: seq<Json>): (p: Parsed)
    ensures p.Parsed? ==> |p.rest| < |s|
    decreases |s|, 1
  {
    match ParseValue(s)
    case Failed => Failed
    case Parsed(v, rest) =>
      var elems' := StoreElem(elems, v);
      if Expects(rest, ',') then ParseElems(Behind(rest), elems')
      else if Expects(rest, ']') then Parsed(Arr(elems'), Behind(rest))
      else Failed
  }

  function IndexOf(members: seq<Member>, name: string): (i: nat)
    ensures i <= |members| && (i < |members| ==> members[i].name == name)
    ensures forall j :: 0 <= j < i ==> members[j].name != name
  {
    if members == [] || members[0].name == name then 0 else 1 + IndexOf(members[1..], name)
  }

  /** A known name gets a new value; a new name goes behind the others, or over the last one when all are used. */
  function StoreMember(members: seq<Member>, name: string, value: Json): seq<Member> {
    var i := IndexOf(members, name);
    if i < |members| then members[i := Member(name, value)]
    else if |members| >= NB_TOKEN then members[..NB_TOKEN - 1] + [Member(name, value)]
    else members + [Member(name, value)]
  }

  function ParseMembers(s: string, members: seq<Member>): (p: Parsed)
    ensures p.Parsed? ==> |p.rest| < |s|
    decreases |s|, 1
  {
    if !Expects(s, '"') then Failed
    else
      match ParseString(Behind(s), "")
      case Failed => Failed
      case Parsed(key, afterKey) =>
        if !Expects(afterKey, ':') then Failed
        else
          match ParseValue(Behind(afterKey))
          case Failed => Failed
          case Parsed(v, rest) =>
            var members' := StoreMember(members, key.s, v);
            if Expects(rest, ',') then ParseMembers(Behind(rest), members')
            else if Expects(rest, '}') then Parsed(Obj(members'), Behind(rest))
            else Failed
  }
}
