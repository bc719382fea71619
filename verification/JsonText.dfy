/** JSON values and the text that the serializer prints for them. */
module JsonText {
  import opened Hex

  /** At most this many values in an array or an object. */
  const NB_TOKEN: nat := 20

  /** `Real` stands for any number that is not a plain 32-bit integer; it keeps the text that was read. */
  datatype Json =
    | Null
    | Bool(b: bool)
    | Int(n: int)
    | Real(text: string)
    | Str(s: string)
    | Arr(elems: seq<Json>)
    | Obj(members: seq<Member>)

  datatype Member = Member(name: string, value: Json)

  // ----- Strings

  /** A character that can only be printed with `\u`. */
  predicate NeedsUnicodeEscape(c: char) {
    (c < ' ' && c !in {'\t', '\n', '\r', '\U{8}', '\U{C}'}) || c == '\U{7F}'
  }

  function Escape(c: char): string {
    if c == '"' then "\\\""
    else if c == '\\' then "\\\\"
    else if c == '/' then "\\/"
    else if c == '\U{8}' then "\\b"
    else if c == '\U{C}' then "\\f"
    else if c == '\n' then "\\n"
    else if c == '\r' then "\\r"
    else if c == '\t' then "\\t"
    else if NeedsUnicodeEscape(c) then "\\u00" + [HexDigit(c as int / 16 % 16), HexDigit(c as int % 16)]
    else [c]
  }

  /** The escaped characters of `s` from position `i` on, and the closing quote. */
  function Escaped(s: string, i: nat): string
    requires i <= |s|
    decreases |s| - i
  {
    if i == |s| then "\"" else Escape(s[i]) + Escaped(s, i + 1)
  }

  function StrText(s: string): string {
    "\"" + Escaped(s, 0)
  }

  // ----- Integers

  function Digit(n: nat): char
    requires n < 10
  {
    "0123456789"[n]
  }

  predicate IsDigit(c: char) {
    '0' <= c <= '9'
  }

  function Decimal(n: nat): string {
    if n < 10 then [Digit(n)] else Decimal(n / 10) + [Digit(n % 10)]
  }

  function IntText(n: int): string {
    if n < 0 then "-" + Decimal(-n) else Decimal(n)
  }

  function Pow10(k: nat): (p: nat)
    ensures p > 0
  {
    if k == 0 then 1 else 10 * Pow10(k - 1)
  }

  lemma {:induction false} DecimalLength(n: nat, k: nat)
    requires k > 0
    ensures |Decimal(n)| <= k <==> n < Pow10(k)
  {
    if k == 1 {
      assert Pow10(1) == 10 * Pow10(0);
    } else if n >= 10 {
      DecimalLength(n / 10, k - 1);
      assert n == 10 * (n / 10) + n % 10;
    } else {
      TenAtLeast(k);
    }
  }

  lemma {:induction false} TenAtLeast(k: nat)
    requires k > 0
    ensures Pow10(k) >= 10
  {
    if k == 1 {
      assert Pow10(1) == 10 * Pow10(0);
    } else {
      TenAtLeast(k - 1);
    }
  }

  /** The text of an integer and the zero behind it fit the ten bytes that they are printed into exactly within these
      bounds. */
  lemma {:induction false} IntTextFitsIff(n: int)
    ensures |IntText(n)| + 1 <= 10 <==> -99_999_999 <= n <= 999_999_999
  {
    hide Decimal;
    DecimalLength(if n < 0 then -n else n, if n < 0 then 8 else 9);
    assert Pow10(4) == 10 * (10 * (10 * (10 * Pow10(0))));
    assert Pow10(8) == 10 * (10 * (10 * (10 * Pow10(4))));
    assert Pow10(9) == 10 * Pow10(8);
  }

  // ----- Values

  /** Values that the serializer prints within its buffers: an integer of ten characters overruns one
      (`IntTextFitsIff`). */
  predicate Printable(v: Json) {
    match v
    case Int(n) => -99_999_999 <= n <= 999_999_999
    case Real(_) => false
    case Arr(elems) => |elems| <= NB_TOKEN && forall e :: e in elems ==> Printable(e)
    case Obj(members) =>
      |members| <= NB_TOKEN && DistinctNames(members) && forall m :: m in members ==> Printable(m.value)
    case _ => true
  }

  predicate DistinctNames(members: seq<Member>) {
    forall i, j :: 0 <= i < j < |members| ==> members[i].name != members[j].name
  }

  function Text(v: Json): string
    requires Printable(v)
  {
    match v
    case Null => "null"
    case Bool(b) => if b then "true" else "false"
    case Int(n) => IntText(n)
    case Str(s) => StrText(s)
    case Arr(elems) => "[" + ElemsText(elems, 0)
    case Obj(members) => "{" + MembersText(members, 0)
  }

  /** The elements from position `i` on, each with its separator, and the closing bracket. */
  function ElemsText(elems: seq<Json>, i: nat): string
    requires i <= |elems| && forall e :: e in elems ==> Printable(e)
    decreases elems, |elems| - i
  {
    if i == |elems| then "]" else (if i > 0 then "," else "") + Text(elems[i]) + ElemsText(elems, i + 1)
  }

  function MemberText(member: Member): string
    requires Printable(member.value)
  {
    StrText(member.name) + ":" + Text(member.value)
  }

  function MembersText(members: seq<Member>, i: nat): string
    requires i <= |members| && forall m :: m in members ==> Printable(m.value)
    decreases members, |members| - i
  {
    if i == |members| then "}"
    else (if i > 0 then "," else "") + MemberText(members[i]) + MembersText(members, i + 1)
  }

  // ----- What survives printing and parsing

  /** No string in the value needs the escape that the parser does not know. */
  predicate Readable(v: Json) {
    match v
    case Str(s) => ReadableString(s)
    case Arr(elems) => forall e :: e in elems ==> Readable(e)
    case Obj(members) => forall m :: m in members ==> ReadableString(m.name) && Readable(m.value)
    case _ => true
  }

  predicate ReadableString(s: string) {
    forall c :: c in s ==> !NeedsUnicodeEscape(c)
  }

  /** Empty arrays and objects come back as null. */
  function Collapse(v: Json): Json {
    match v
    case Arr(elems) => if elems == [] then Null else Arr(CollapseElems(elems))
    case Obj(members) => if members == [] then Null else Obj(CollapseMembers(members))
    case _ => v
  }

  function CollapseElems(elems: seq<Json>): (r: seq<Json>)
    ensures |r| == |elems| && forall i :: 0 <= i < |elems| ==> r[i] == Collapse(elems[i])
  {
    seq(|elems|, i requires 0 <= i < |elems| => Collapse(elems[i]))
  }

  function CollapseMembers(members: seq<Member>): (r: seq<Member>)
    ensures |r| == |members|
    ensures forall i :: 0 <= i < |members| ==> r[i] == Member(members[i].name, Collapse(members[i].value))
  {
    seq(|members|, i requires 0 <= i < |members| => Member(members[i].name, Collapse(members[i].value)))
  }

  /** No empty array and no empty object anywhere. */
  predicate NoEmptyContainer(v: Json) {
    match v
    case Arr(elems) => elems != [] && forall e :: e in elems ==> NoEmptyContainer(e)
    case Obj(members) => members != [] && forall m :: m in members ==> NoEmptyContainer(m.value)
    case _ => true
  }

  lemma {:induction false} CollapseIsIdentityIff(v: Json)
    ensures Collapse(v) == v <==> NoEmptyContainer(v)
  {
    match v
    case Arr(elems) =>
      forall e | e in elems
        ensures Collapse(e) == e <==> NoEmptyContainer(e)
      {
        CollapseIsIdentityIff(e);
      }
      if elems != [] && forall e :: e in elems ==> NoEmptyContainer(e) {
        assert CollapseElems(elems) == elems;
      }
    case Obj(members) =>
      forall m | m in members
        ensures Collapse(m.value) == m.value <==> NoEmptyContainer(m.value)
      {
        CollapseIsIdentityIff(m.value);
      }
      if members != [] && forall m :: m in members ==> NoEmptyContainer(m.value) {
        assert CollapseMembers(members) == members;
      }
    case _ =>
  }
}
