/** The parser and the serializer as they run: a cursor with one character of pushback, and loops that build a value. */
module JsonInput {
  import opened JsonText
  import opened JsonParser
  import opened JsonRoundTrip

  /** The end of the input, where the cursor would otherwise deliver a character. */
  const EOF: int := -1

  function Newlines(s: string): nat {
    if s == [] then 0 else Newlines(s[..|s| - 1]) + (if s[|s| - 1] == '\n' then 1 else 0)
  }

  class Input {
    const text: string
    var cur: nat
    var lastCh: int
    var ungot: bool
    var line: int

    /** `line` counts the line of the last character read. */
    ghost predicate Valid()
      reads this
    {
      cur <= |text| && (ungot ==> lastCh != EOF) &&
      (lastCh != EOF ==> cur > 0 && lastCh == text[cur - 1] as int) &&
      (lastCh == EOF ==> cur == 0 || cur == |text|) &&
      line == 1 + Newlines(text[..if cur > 0 then cur - 1 else 0])
    }

    /** What is still to be read. */
    ghost function Remaining(): string
      reads this
      requires Valid()
    {
      if ungot then text[cur - 1..] else text[cur..]
    }

    /** What will be to be read after pushing the last character back. */
    ghost function Pushback(): string
      reads this
      requires Valid()
    {
      if lastCh != EOF then text[cur - 1..] else text[cur..]
    }

    constructor (text: string)
      ensures Valid() && this.text == text && Remaining() == text
    {
      this.text, cur, lastCh, ungot, line := text, 0, EOF, false, 1;
    }

    method Getc() returns (ch: int)
      requires Valid()
      modifies this
      ensures Valid() && Pushback() == old(Remaining())
      ensures if old(Remaining()) == "" then ch == EOF && Remaining() == ""
              else ch == old(Remaining())[0] as int && Remaining() == old(Remaining())[1..]
    {
      if ungot {
        ungot := false;
        return lastCh;
      }
      if cur == |text| {
        lastCh := EOF;
        return EOF;
      }
      if lastCh == '\n' as int {
        line := line + 1;
      }
      assert cur > 0 ==> text[..cur][..cur - 1] == text[..cur - 1];
      lastCh := text[cur] as int;
      cur := cur + 1;
      return lastCh;
    }

    method Ungetc()
      requires Valid()
      modifies this
      ensures Valid() && Remaining() == old(Pushback())
    {
      if lastCh != EOF {
        ungot := true;
      }
    }

    method SkipWs()
      requires Valid()
      modifies this
      ensures Valid() && Remaining() == SkipSpace(old(Remaining()))
    {
      hide Valid, Remaining, Pushback;
      while true
        invariant Valid() && SkipSpace(Remaining()) == SkipSpace(old(Remaining()))
        decreases |Remaining()|
      {
        var ch := Getc();
        if !(ch == ' ' as int || ch == '\t' as int || ch == '\n' as int || ch == '\r' as int) {
          Ungetc();
          break;
        }
      }
    }

    /** Consumes white space, and then the expected character if it is there. */
    method Expect(c: char) returns (found: bool)
      requires Valid()
      modifies this
      ensures Valid() && found == Expects(old(Remaining()), c)
      ensures Remaining() == if found then Behind(old(Remaining())) else SkipSpace(old(Remaining()))
    {
      hide Valid, Remaining, Pushback;
      SkipWs();
      var ch := Getc();
      if ch != c as int {
        Ungetc();
        return false;
      }
      return true;
    }

    method Match(pattern: string) returns (matched: bool)
      requires Valid()
      modifies this
      ensures Valid() && matched == (pattern <= old(Remaining()))
      ensures matched ==> Remaining() == old(Remaining())[|pattern|..]
    {
      hide Valid, Remaining, Pushback;
      ghost var before := Remaining();
      for i := 0 to |pattern|
        invariant Valid() && i <= |before| && pattern[..i] == before[..i]
        invariant Remaining() == before[i..]
      {
        var ch := Getc();
        if ch != pattern[i] as int {
          Ungetc();
          assert i >= |before| || before[i..][0] == before[i] != pattern[i];
          return false;
        }
        assert before[i..][0] == before[i] && before[i..][1..] == before[i + 1..];
        assert pattern[..i + 1] == pattern[..i] + [pattern[i]] && before[..i + 1] == before[..i] + [before[i]];
      }
      assert pattern[..|pattern|] == pattern;
      return true;
    }

    // ----- The parser

    /** The outcome that a parse method reports and where it leaves the cursor. */
    ghost predicate Did(p: Parsed, ok: bool, out: Json)
      reads this
    {
      Valid() && ok == p.Parsed? && (ok ==> out == p.value && Remaining() == p.rest)
    }

    method ParseStringIn() returns (ok: bool, out: Json)
      requires Valid()
      modifies this
      ensures Did(ParseString(old(Remaining()), ""), ok, out)
    {
      hide Valid, Remaining, Pushback;
      var s := "";
      while true
        invariant Valid() && ParseString(Remaining(), s) == ParseString(old(Remaining()), "")
        decreases |Remaining()|
      {
        var ch := Getc();
        if ch < ' ' as int {
          Ungetc();
          return false, Str(s);
        } else if ch == '"' as int {
          return true, Str(s);
        } else if ch == '\\' as int {
          ch := Getc();
          if ch == EOF {
            return false, Str(s);
          }
          var c := Unescape(ch as char);
          if c == "" {
            return false, Str(s);
          }
          s := s + c;
        } else {
          s := s + [ch as char];
        }
      }
    }

    method ParseNumberIn() returns (ok: bool, out: Json)
      requires Valid()
      modifies this
      ensures Did(ParseNumber(old(Remaining())), ok, out)
    {
      hide Valid, Remaining, Pushback, IsDouble, IntegerPart, StrtodConvertsAll, NumberRun, IsNumberChar, Newlines,
           NumberValue;
      var numStr := CollectNumber();
      if !StrtodConvertsAll(numStr) {
        return false, Null;
      }
      return true, NumberValue(numStr);
    }

    method CollectNumber() returns (numStr: string)
      requires Valid()
      modifies this
      ensures Valid() && numStr == old(Remaining())[..NumberRun(old(Remaining()))]
      ensures Remaining() == old(Remaining())[NumberRun(old(Remaining()))..]
    {
      hide Valid, Remaining, Pushback;
      numStr := "";
      ghost var before := Remaining();
      while true
        invariant Valid() && |numStr| <= |before| && numStr == before[..|numStr|] && Remaining() == before[|numStr|..]
        invariant forall i :: 0 <= i < |numStr| ==> IsNumberChar(before[i])
        decreases |Remaining()|
      {
        var ch := Getc();
        if ch != EOF && IsNumberChar(ch as char) {
          assert before[|numStr|..][1..] == before[|numStr| + 1..];
          numStr := numStr + [ch as char];
        } else {
          Ungetc();
          break;
        }
      }
    }

    /** Skipped white space makes no difference to what is read next. */
    lemma {:induction false} Skipped(s: string, c: char)
      ensures SkipSpace(SkipSpace(s)) == SkipSpace(s) && Expects(SkipSpace(s), c) == Expects(s, c)
      ensures SkipSpace(s) != "" ==> Behind(SkipSpace(s)) == Behind(s)
      ensures ParseValue(SkipSpace(s)) == ParseValue(s)
      ensures forall elems :: ParseElems(SkipSpace(s), elems) == ParseElems(s, elems)
      ensures forall members :: ParseMembers(SkipSpace(s), members) == ParseMembers(s, members)
    {
      SkipTwice(s);
    }

    /** An array, behind its opening bracket. An empty one leaves the fresh output as it is: null. */
    method ParseArrayIn() returns (ok: bool, out: Json)
      requires Valid()
      modifies this
      ensures var s := old(Remaining());
              Did(if Expects(s, ']') then Parsed(Null, Behind(s)) else ParseElems(s, []), ok, out)
      decreases |Remaining()|, 1
    {
      hide Valid, Remaining, Pushback, Expects, Behind, ParseValue;
      Skipped(Remaining(), ']');
      var found := Expect(']');
      if found {
        return true, Null;
      }
      var elems: seq<Json> := [];
      ghost var goal := ParseElems(Remaining(), []);
      while true
        invariant Valid() && ParseElems(Remaining(), elems) == goal
        invariant |Remaining()| <= |old(Remaining())|
        decreases |Remaining()|
      {
        var v;
        ok, v := ParseValueIn();
        if !ok {
          return false, Arr(elems);
        }
        if |elems| < NB_TOKEN {
          elems := elems + [v];
        }
        Skipped(Remaining(), ']');
        found := Expect(',');
        if !found {
          break;
        }
      }
      ok := Expect(']');
      return ok, Arr(elems);
    }

    /** An object, behind its opening brace. */
    method ParseObjectIn() returns (ok: bool, out: Json)
      requires Valid()
      modifies this
      ensures var s := old(Remaining());
              Did(if Expects(s, '}') then Parsed(Null, Behind(s)) else ParseMembers(s, []), ok, out)
      decreases |Remaining()|, 1
    {
      hide Valid, Remaining, Pushback, Expects, Behind, ParseValue, ParseString, StoreMember;
      Skipped(Remaining(), '}');
      var found := Expect('}');
      if found {
        return true, Null;
      }
      var members: seq<Member> := [];
      ghost var goal := ParseMembers(Remaining(), []);
      while true
        invariant Valid() && ParseMembers(Remaining(), members) == goal
        invariant |Remaining()| <= |old(Remaining())|
        decreases |Remaining()|
      {
        found := Expect('"');
        if !found {
          return false, Obj(members);
        }
        var key, v;
        ok, key := ParseStringIn();
        if !ok {
          return false, Obj(members);
        }
        found := Expect(':');
        if !found {
          return false, Obj(members);
        }
        ok, v := ParseValueIn();
        if !ok {
          return false, Obj(members);
        }
        members := StoreMember(members, key.s, v);
        Skipped(Remaining(), '}');
        found := Expect(',');
        if !found {
          break;
        }
      }
      ok := Expect('}');
      return ok, Obj(members);
    }

    method ParseValueIn() returns (ok: bool, out: Json)
      requires Valid()
      modifies this
      ensures Did(ParseValue(old(Remaining())), ok, out)
      decreases |Remaining()|, 0
    {
      hide Valid, Remaining, Pushback, ParseElems, ParseMembers, ParseString, ParseNumber, Expects, Behind;
      SkipWs();
      var ch := Getc();
      if ch == 'n' as int {
        ok := Match("ull");
        return ok, Null;
      } else if ch == 'f' as int {
        ok := Match("alse");
        return ok, Bool(false);
      } else if ch == 't' as int {
        ok := Match("rue");
        return ok, Bool(true);
      } else if ch == '"' as int {
        ok, out := ParseStringIn();
      } else if ch == '[' as int {
        ok, out := ParseArrayIn();
      } else if ch == '{' as int {
        ok, out := ParseObjectIn();
      } else if ('0' as int <= ch <= '9' as int) || ch == '-' as int {
        Ungetc();
        ok, out := ParseNumberIn();
      } else {
        Ungetc();
        return false, Null;
      }
    }
  }

  // ----- The serializer

  /** The serializer writes character by character behind what it has already written. */
  method SerializeStr(s: string) returns (out: string)
    ensures out == StrText(s)
  {
    out := "\"";
    for i := 0 to |s|
      invariant out + Escaped(s, i) == StrText(s)
    {
      assert out + (Escape(s[i]) + Escaped(s, i + 1)) == out + Escape(s[i]) + Escaped(s, i + 1);
      out := out + Escape(s[i]);
    }
    out := out + "\"";
  }

  method Serialize(v: Json) returns (out: string)
    requires Printable(v)
    ensures out == Text(v)
    decreases v
  {
    match v
    case Null => out := "null";
    case Bool(b) => out := if b then "true" else "false";
    case Int(n) => out := IntText(n);
    case Str(s) => out := SerializeStr(s);
    case Arr(elems) => out := SerializeArray(elems);
    case Obj(members) => out := SerializeObject(members);
  }

  method SerializeArray(elems: seq<Json>) returns (out: string)
    requires forall e :: e in elems ==> Printable(e)
    ensures out == "[" + ElemsText(elems, 0)
    decreases elems
  {
    hide Text, Printable;
    ghost var goal := "[" + ElemsText(elems, 0);
    out := "[";
    for i := 0 to |elems|
      invariant out + ElemsText(elems, i) == goal
    {
      var e := Serialize(elems[i]);
      ghost var comma, tail := if i > 0 then "," else "", ElemsText(elems, i + 1);
      assert out + (comma + e + tail) == out + comma + e + tail;
      out := out + (if i > 0 then "," else "") + e;
    }
    out := out + "]";
  }

  method SerializeObject(members: seq<Member>) returns (out: string)
    requires forall m :: m in members ==> Printable(m.value)
    ensures out == "{" + MembersText(members, 0)
    decreases members
  {
    hide Text, Printable, StrText;
    ghost var goal := "{" + MembersText(members, 0);
    out := "{";
    for i := 0 to |members|
      invariant out + MembersText(members, i) == goal
    {
      var name := SerializeStr(members[i].name);
      var e := Serialize(members[i].value);
      ghost var comma, member, tail := if i > 0 then "," else "", name + ":" + e, MembersText(members, i + 1);
      assert out + (comma + member + tail) == out + comma + member + tail;
      out := out + (if i > 0 then "," else "") + (name + ":" + e);
    }
    out := out + "}";
  }

  /** A printed value, sent and parsed: its empty containers have become null, or the parser refuses it. */
  method PrintAndParse(v: Json, rest: string) returns (ok: bool, out: Json, input: Input)
    requires Printable(v) && EndsNumber(rest)
    ensures ok == Readable(v) && fresh(input) && input.Valid()
    ensures ok ==> out == Collapse(v) && input.Remaining() == rest
  {
    hide Printable, Text, ParseValue, Readable, Collapse, Input.Valid, Input.Remaining, Input.Pushback, Newlines,
         EndsNumber,
         SkipSpace, NumberRun;
    var text := Serialize(v);
    input := new Input(text + rest);
    ValueRoundTrip(v, rest);
    ok, out := input.ParseValueIn();
  }
}
