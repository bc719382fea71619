/** A form body (`application/x-www-form-urlencoded`) that is produced one pair at a time, its announced length, and the
    reference reader for it (percent-encoding of RFC 3986, section 2.1, with `+` for a space). */
module HttpMap {
  import opened Hex

  const HTTPMAP_TABLE_SIZE: nat := 32

  /** A C string: bytes, none of them zero. */
  type CString = s: string | forall i :: 0 <= i < |s| ==> '\0' < s[i] < '\U{100}' witness []

  datatype Pair = Pair(key: CString, value: CString)

  // ----- What is written

  predicate IsUnreserved(c: char) {
    'a' <= c <= 'z' || 'A' <= c <= 'Z' || '0' <= c <= '9' || c in {'-', '_', '.', '~'}
  }

  function Escape(c: char): (t: string)
    ensures |t| in {1, 3}
  {
    if IsUnreserved(c) then [c]
    else if c == ' ' then "+"
    else ['%', HexDigit(c as int / 16 % 16), HexDigit(c as int % 16)]
  }

  function Encoded(s: string): (t: string)
    ensures |t| >= |s|
  {
    if s == [] then [] else Escape(s[0]) + Encoded(s[1..])
  }

  /** As much of `s` as is written from offset `o` on: another character is begun only before offset `limit`. */
  function EncodedUpTo(s: string, o: nat, limit: nat): string {
    if s == [] || o >= limit then [] else Escape(s[0]) + EncodedUpTo(s[1..], o + |Escape(s[0])|, limit)
  }

  function Separator(i: nat): string {
    if i == 0 then [] else "&"
  }

  /** Pair `i` in full. */
  function PairText(p: Pair, i: nat): (t: string)
    ensures t != []
  {
    Separator(i) + Encoded(p.key) + "=" + Encoded(p.value)
  }

  /** Pair `i` as it is written into a buffer of `len` bytes. */
  function Chunk(p: Pair, i: nat, len: nat): string
    requires len >= 3
  {
    var a := Separator(i);
    var b := a + EncodedUpTo(p.key, |a|, len - 3);
    var c := if |b| < len - 1 then b + "=" else b;
    c + EncodedUpTo(p.value, |c|, len - 3)
  }

  /** The pairs from the `i`-th on. */
  function Body(pairs: seq<Pair>, i: nat): string
    requires i <= |pairs|
    decreases |pairs| - i
  {
    if i == |pairs| then [] else PairText(pairs[i], i) + Body(pairs, i + 1)
  }

  function Chunks(pairs: seq<Pair>, i: nat, len: nat): string
    requires i <= |pairs| && len >= 3
    decreases |pairs| - i
  {
    if i == |pairs| then [] else Chunk(pairs[i], i, len) + Chunks(pairs, i + 1, len)
  }

  // ----- When nothing is cut off

  /** There is room for `s` from offset `o` on: its last character is begun before the limit. */
  predicate Whole(s: string, o: nat, limit: nat) {
    s == [] || o + |Encoded(s[..|s| - 1])| < limit
  }

  predicate Fits(p: Pair, i: nat, len: nat)
    requires len >= 3
  {
    var o := |Separator(i)|;
    Whole(p.key, o, len - 3) && o + |Encoded(p.key)| < len - 1 && Whole(p.value, o + |Encoded(p.key)| + 1, len - 3)
  }

  lemma {:induction false} EncodedStep(done: string, s: string, o: nat, limit: nat)
    requires s != [] && o < limit
    ensures done + EncodedUpTo(s, o, limit) ==
            (done + Escape(s[0])) + EncodedUpTo(s[1..], o + |Escape(s[0])|, limit)
  {
  }

  lemma {:induction false} EncodedEnds(s: string, o: nat, limit: nat)
    ensures s == [] || o >= limit ==> EncodedUpTo(s, o, limit) == []
  {
  }

  lemma {:induction false} EncodedIsWholeIff(s: string, o: nat, limit: nat)
    ensures |EncodedUpTo(s, o, limit)| <= |Encoded(s)|
    ensures EncodedUpTo(s, o, limit) == Encoded(s) <==> Whole(s, o, limit)
    ensures |EncodedUpTo(s, o, limit)| == |Encoded(s)| <==> Whole(s, o, limit)
    ensures o + |EncodedUpTo(s, o, limit)| <= if o >= limit then o else limit + 2
  {
    if s != [] && o < limit {
      EncodedIsWholeIff(s[1..], o + |Escape(s[0])|, limit);
      if |s| > 1 {
        assert s[..|s| - 1][1..] == s[1..][..|s| - 2];
        assert Encoded(s[..|s| - 1]) == Escape(s[0]) + Encoded(s[1..][..|s| - 2]);
      }
    }
  }

  lemma {:induction false} ChunkFitsBuffer(p: Pair, i: nat, len: nat)
    requires len >= 3
    ensures 0 < |Chunk(p, i, len)| < len
  {
    hide EncodedUpTo, Whole;
    var a := Separator(i);
    EncodedIsWholeIff(p.key, |a|, len - 3);
    var b := a + EncodedUpTo(p.key, |a|, len - 3);
    var c := if |b| < len - 1 then b + "=" else b;
    EncodedIsWholeIff(p.value, |c|, len - 3);
  }

  /** A pair is written in full exactly when it fits, and it is shorter otherwise. */
  lemma {:induction false} ChunkIsWholeIff(p: Pair, i: nat, len: nat)
    requires len >= 3
    ensures |Chunk(p, i, len)| <= |PairText(p, i)|
    ensures |Chunk(p, i, len)| == |PairText(p, i)| <==> Fits(p, i, len)
    ensures Fits(p, i, len) ==> Chunk(p, i, len) == PairText(p, i)
  {
    var a := Separator(i);
    EncodedIsWholeIff(p.key, |a|, len - 3);
    var b := a + EncodedUpTo(p.key, |a|, len - 3);
    var c := if |b| < len - 1 then b + "=" else b;
    EncodedIsWholeIff(p.value, |c|, len - 3);
  }

  /** The bytes that reading to the end produces are as many as announced exactly when every pair fits its buffer, and
      then they are the whole body. */
  lemma {:induction false} ChunksAreBodyIff(pairs: seq<Pair>, i: nat, len: nat)
    requires i <= |pairs| && len >= 3
    ensures |Chunks(pairs, i, len)| <= |Body(pairs, i)|
    ensures |Chunks(pairs, i, len)| == |Body(pairs, i)| <==> forall j :: i <= j < |pairs| ==> Fits(pairs[j], j, len)
    ensures |Chunks(pairs, i, len)| == |Body(pairs, i)| ==> Chunks(pairs, i, len) == Body(pairs, i)
    decreases |pairs| - i
  {
    hide Chunk, PairText, Fits;
    if i < |pairs| {
      ChunkIsWholeIff(pairs[i], i, len);
      ChunksAreBodyIff(pairs, i + 1, len);
    }
  }

  /** A pair that is as long as the whole body is the only one. */
  lemma {:induction false} LongPairIsAlone(pairs: seq<Pair>, i: nat, len: nat)
    requires i < |pairs| && len >= 3 && |Chunk(pairs[i], i, len)| >= |Body(pairs, 0)|
    ensures i == 0 && |pairs| == 1
  {
    hide Chunk, PairText;
    ChunkIsWholeIff(pairs[i], i, len);
    PairsBefore(pairs, i);
    PairsAfter(pairs, i);
  }

  lemma {:induction false} PairsAfter(pairs: seq<Pair>, i: nat)
    requires i < |pairs|
    ensures |Body(pairs, i)| >= |PairText(pairs[i], i)| + if i + 1 < |pairs| then 1 else 0
  {
    hide PairText;
    assert i + 1 < |pairs| ==> Body(pairs, i + 1) == PairText(pairs[i + 1], i + 1) + Body(pairs, i + 2);
  }

  lemma {:induction false} PairsBefore(pairs: seq<Pair>, i: nat)
    requires i <= |pairs|
    ensures |Body(pairs, 0)| >= i + |Body(pairs, i)|
  {
    hide PairText;
    if i > 0 {
      PairsBefore(pairs, i - 1);
    }
  }

  // ----- The reference reader

  datatype Read<T> = Done(value: T, rest: string) | Bad

  function HexValue(c: char): (n: int)
    ensures -1 <= n < 16
  {
    if '0' <= c <= '9' then c as int - '0' as int
    else if 'a' <= c <= 'f' then c as int - 'a' as int + 10
    else if 'A' <= c <= 'F' then c as int - 'A' as int + 10
    else -1
  }

  /** Reads up to the next `&` or `=`, or to the end. */
  function ReadToken(t: string): (r: Read<string>)
    ensures r.Done? ==> |r.rest| <= |t| && (r.rest == [] || r.rest[0] in {'&', '='})
  {
    if t == [] || t[0] in {'&', '='} then Done([], t)
    else if t[0] == '%' then
      if |t| < 3 || HexValue(t[1]) < 0 || HexValue(t[2]) < 0 then Bad
      else Prepend((HexValue(t[1]) * 16 + HexValue(t[2])) as char, ReadToken(t[3..]))
    else Prepend(if t[0] == '+' then ' ' else t[0], ReadToken(t[1..]))
  }

  function Prepend(c: char, r: Read<string>): Read<string> {
    if r.Done? then Done([c] + r.value, r.rest) else Bad
  }

  /** Pairs of strings, separated by `&`. */
  function ReadForm(t: string): Read<seq<(string, string)>>
    decreases |t|
  {
    var key := ReadToken(t);
    if key.Bad? || key.rest == [] || key.rest[0] != '=' then Bad
    else
      var value := ReadToken(key.rest[1..]);
      if value.Bad? then Bad
      else if value.rest == [] then Done([(key.value, value.value)], [])
      else if value.rest[0] != '&' then Bad
      else
        var others := ReadForm(value.rest[1..]);
        if others.Bad? then Bad else Done([(key.value, value.value)] + others.value, [])
  }

  lemma {:induction false} ReadEscape(c: char, t: string)
    requires c < '\U{100}'
    ensures ReadToken(Escape(c) + t) == Prepend(c, ReadToken(t))
  {
    hide HexDigit, HexValue;
    if IsUnreserved(c) {
      assert ([c] + t)[1..] == t;
    } else if c == ' ' {
      assert ("+" + t)[1..] == t;
    } else {
      HexRoundTrip(c as int / 16 % 16);
      HexRoundTrip(c as int % 16);
      assert (Escape(c) + t)[3..] == t;
    }
  }

  lemma {:induction false} HexRoundTrip(n: nat)
    requires n < 16
    ensures HexValue(HexDigit(n)) == n
  {
  }

  lemma {:induction false} TokenRoundTrip(s: CString, rest: string)
    requires rest == [] || rest[0] in {'&', '='}
    ensures ReadToken(Encoded(s) + rest) == Read<string>.Done(s, rest)
  {
    hide Escape;
    if s == [] {
      assert Encoded(s) + rest == rest;
    } else {
      assert Encoded(s) + rest == Escape(s[0]) + (Encoded(s[1..]) + rest);
      ReadEscape(s[0], Encoded(s[1..]) + rest);
      TokenRoundTrip(s[1..], rest);
      assert [s[0]] + s[1..] == s;
    }
  }

  function Plain(pairs: seq<Pair>): seq<(string, string)> {
    if pairs == [] then [] else [(pairs[0].key, pairs[0].value)] + Plain(pairs[1..])
  }

  /** The body from pair `i` on, without the separator in front of it. */
  function BodyFrom(pairs: seq<Pair>, i: nat): string
    requires i < |pairs|
  {
    Encoded(pairs[i].key) + ("=" + (Encoded(pairs[i].value) + Body(pairs, i + 1)))
  }

  lemma {:induction false} BodySplit(pairs: seq<Pair>, i: nat)
    requires i < |pairs|
    ensures Body(pairs, i) == Separator(i) + BodyFrom(pairs, i)
  {
    hide Encoded;
  }

  /** The body reads as the pairs in their order. */
  lemma {:induction false} FormRoundTrip(pairs: seq<Pair>, i: nat)
    requires i < |pairs|
    ensures ReadForm(BodyFrom(pairs, i)) == Done(Plain(pairs[i..]), [])
    decreases |pairs| - i
  {
    hide ReadToken, Encoded, Plain, ReadForm, PairText;
    PlainStep(pairs, i);
    if i + 1 < |pairs| {
      FormRoundTrip(pairs, i + 1);
      BodySplit(pairs, i + 1);
      ReadOnePair(pairs[i].key, pairs[i].value, BodyFrom(pairs, i + 1), true);
    } else {
      assert Body(pairs, i + 1) == "" + "";
      ReadOnePair(pairs[i].key, pairs[i].value, "", false);
    }
  }

  lemma {:induction false} ReadOnePair(key: CString, value: CString, after: string, more: bool)
    requires if more then ReadForm(after).Done? else after == []
    ensures ReadForm(Encoded(key) + ("=" + (Encoded(value) + ((if more then "&" else "") + after)))) ==
            Done([(key, value)] + if more then ReadForm(after).value else [], [])
  {
    hide ReadToken, Encoded;
    var rest := (if more then "&" else "") + after;
    TokenRoundTrip(key, "=" + (Encoded(value) + rest));
    assert ("=" + (Encoded(value) + rest))[1..] == Encoded(value) + rest;
    TokenRoundTrip(value, rest);
    assert more ==> rest[1..] == after;
    assert !more ==> [(key, value)] + [] == [(key, value)];
  }

  lemma {:induction false} PlainStep(pairs: seq<Pair>, i: nat)
    requires i < |pairs|
    ensures Plain(pairs[i..]) == [(pairs[i].key, pairs[i].value)] + Plain(pairs[i + 1..])
    ensures Plain(pairs[|pairs|..]) == []
  {
    assert pairs[i..][1..] == pairs[i + 1..];
  }

  ghost predicate AllFit(pairs: seq<Pair>, len: nat)
    requires len >= 3
  {
    forall i :: 0 <= i < |pairs| ==> Fits(pairs[i], i, len)
  }

  /** What is sent is as long as announced exactly when every pair fits the buffer, and then it reads as the pairs. */
  lemma {:induction false} SentInFullIff(pairs: seq<Pair>, len: nat)
    requires len >= 3
    ensures |Chunks(pairs, 0, len)| == |Body(pairs, 0)| <==> AllFit(pairs, len)
    ensures AllFit(pairs, len) && pairs != [] ==> ReadForm(Chunks(pairs, 0, len)) == Done(Plain(pairs), [])
  {
    hide Body, BodyFrom, ReadForm, Plain, Fits, Chunks;
    ChunksAreBodyIff(pairs, 0, len);
    if pairs != [] {
      FormRoundTrip(pairs, 0);
      BodySplit(pairs, 0);
      assert Body(pairs, 0) == BodyFrom(pairs, 0);
      assert pairs[0..] == pairs;
    }
  }

  /** A pair whose value of 253 letters is one too long for the buffer of the client: its last letter is not sent. */
  lemma {:induction false} LongValueIsCut(value: CString)
    requires |value| == 253 && forall i :: 0 <= i < |value| ==> value[i] == 'a'
    ensures |Chunks([Pair([], value)], 0, 256)| < |Body([Pair([], value)], 0)|
    ensures |Chunks([Pair([], value[..252])], 0, 256)| == |Body([Pair([], value[..252])], 0)|
  {
    hide Encoded, Body, Chunks;
    var pairs, shorter := [Pair([], value)], [Pair([], value[..252])];
    EncodedLetters(value[..252]);
    EncodedLetters(value[..252][..251]);
    NothingEncoded();
    assert !Fits(pairs[0], 0, 256);
    assert Fits(shorter[0], 0, 256);
    ChunksAreBodyIff(pairs, 0, 256);
    SentInFullIff(pairs, 256);
    SentInFullIff(shorter, 256);
  }

  lemma {:induction false} NothingEncoded()
    ensures Encoded([]) == []
  {
  }

  lemma {:induction false} EncodedLetters(s: string)
    requires forall i :: 0 <= i < |s| ==> s[i] == 'a'
    ensures |Encoded(s)| == |s|
  {
    if s != [] {
      EncodedLetters(s[1..]);
    }
  }

  lemma {:induction false} ChunksStep(pairs: seq<Pair>, i: nat, len: nat)
    requires i <= |pairs| && len >= 3
    ensures i < |pairs| ==> Chunks(pairs, i, len) == Chunk(pairs[i], i, len) + Chunks(pairs, i + 1, len)
  {
  }

  lemma {:induction false} NoMoreChunks(pairs: seq<Pair>, len: nat)
    requires len >= 3
    ensures Chunks(pairs, |pairs|, len) == []
  {
  }

  // ----- The map

  ghost function Zip(keys: seq<CString>, values: seq<CString>): (pairs: seq<Pair>)
    requires |keys| == |values|
    ensures |pairs| == |keys|
  {
    seq(|keys|, i requires 0 <= i < |keys| => Pair(keys[i], values[i]))
  }

  class HTTPMap {
    const keys: array<CString>
    const values: array<CString>
    var pos: nat
    var count: nat

    ghost predicate Valid()
      reads this`count
    {
      keys != values && keys.Length == values.Length == HTTPMAP_TABLE_SIZE && count <= HTTPMAP_TABLE_SIZE
    }

    ghost function Pairs(): (pairs: seq<Pair>)
      reads this`count, keys, values
      requires Valid()
      ensures |pairs| == count
    {
      Zip(keys[..count], values[..count])
    }

    constructor ()
      ensures Valid() && Pairs() == [] && pos == 0 && fresh(keys) && fresh(values)
    {
      keys, values := new CString[HTTPMAP_TABLE_SIZE], new CString[HTTPMAP_TABLE_SIZE];
      pos, count := 0, 0;
    }

    /** Pairs beyond the 32nd are dropped. */
    method Put(key: CString, value: CString)
      requires Valid()
      modifies this`count, keys, values
      ensures Valid()
      ensures Pairs() == if |old(Pairs())| < HTTPMAP_TABLE_SIZE then old(Pairs()) + [Pair(key, value)] else old(Pairs())
    {
      if count >= HTTPMAP_TABLE_SIZE {
        return;
      }
      keys[count] := key;
      values[count] := value;
      count := count + 1;
    }

    method Clear()
      requires Valid()
      modifies this
      ensures Valid() && Pairs() == [] && pos == 0
    {
      count, pos := 0, 0;
    }

    method ReadReset()
      modifies this`pos
      ensures pos == 0
    {
      pos := 0;
    }

    /** Writes one character at offset `from`. */
    static method PutEscape(buf: array<char>, c: char, from: nat) returns (out: nat)
      requires from + 3 <= buf.Length
      modifies buf
      ensures out == from + |Escape(c)| && buf[..out] == old(buf[..from]) + Escape(c)
    {
      hide HexDigit;
      out := from;
      if IsUnreserved(c) {
        buf[out] := c;
        out := out + 1;
      } else if c == ' ' {
        buf[out] := '+';
        out := out + 1;
      } else {
        buf[out] := '%';
        out := out + 1;
        buf[out] := HexDigit(c as int / 16 % 16);
        out := out + 1;
        buf[out] := HexDigit(c as int % 16);
        out := out + 1;
      }
    }

    /** The loop that writes one string from offset `from` on. */
    static method CopyEncoded(buf: array<char>, s: CString, from: nat) returns (out: nat)
      requires buf.Length >= 3 && from < buf.Length
      modifies buf
      ensures out == from + |EncodedUpTo(s, from, buf.Length - 3)| < buf.Length
      ensures buf[..out] == old(buf[..from]) + EncodedUpTo(s, from, buf.Length - 3)
    {
      hide Escape, EncodedUpTo;
      out := from;
      var i := 0;
      var limit := buf.Length - 3;
      while i < |s| && out < limit
        invariant i <= |s| && from <= out < buf.Length
        invariant buf[..out] + EncodedUpTo(s[i..], out, limit) == old(buf[..from]) + EncodedUpTo(s, from, limit)
        decreases |s| - i
      {
        ghost var done := buf[..out];
        assert s[i..][1..] == s[i + 1..];
        EncodedStep(done, s[i..], out, limit);
        out := PutEscape(buf, s[i], out);
        i := i + 1;
      }
      EncodedEnds(s[i..], out, limit);
    }

    /** Writes the next pair; 0 means that there was none, and starts over. */
    method Read(buf: array<char>) returns (readLen: nat)
      requires Valid() && buf.Length >= 3
      modifies this`pos, buf
      ensures if old(pos) >= count then readLen == 0 && pos == 0 && buf[..] == old(buf[..])
              else pos == old(pos) + 1 && 0 < readLen < buf.Length &&
                   buf[..readLen] == Chunk(Pairs()[old(pos)], old(pos), buf.Length)
    {
      hide EncodedUpTo;
      if pos >= count {
        pos := 0;
        return 0;
      }
      ChunkFitsBuffer(Pairs()[pos], pos, buf.Length);
      var key, value := keys[pos], values[pos];
      var out := 0;
      if pos != 0 && out < buf.Length - 1 {
        buf[out] := '&';
        out := out + 1;
      }
      assert buf[..out] == Separator(pos);
      out := CopyEncoded(buf, key, out);
      if out < buf.Length - 1 {
        ghost var before := buf[..out];
        buf[out] := '=';
        out := out + 1;
        assert buf[..out] == before + "=";
      }
      out := CopyEncoded(buf, value, out);
      readLen := out;
      pos := pos + 1;
    }

    /** The number of bytes that a string takes. */
    static method CountEncoded(s: CString) returns (n: nat)
      ensures n == |Encoded(s)|
    {
      n := 0;
      var i := 0;
      while i < |s|
        invariant i <= |s| && n + |Encoded(s[i..])| == |Encoded(s)|
      {
        assert s[i..][1..] == s[i + 1..];
        n := n + |Escape(s[i])|;
        i := i + 1;
      }
    }

    /** What is announced as the length is the length of the whole body. */
    method GetDataLen() returns (n: nat)
      requires Valid()
      ensures n == |Body(Pairs(), 0)|
    {
      hide Encoded;
      n := 0;
      for i := 0 to count
        invariant n + |Body(Pairs(), i)| == |Body(Pairs(), 0)|
      {
        if i != 0 {
          n := n + 1;
        }
        var k := CountEncoded(keys[i]);
        var v := CountEncoded(values[i]);
        n := n + k + 1 + v;
      }
    }

    /** The client's loop: read a piece and send it, until a piece is empty or is as long as the whole. */
    method SendAll(buf: array<char>) returns (sent: string, announced: nat)
      requires Valid() && buf.Length >= 3
      modifies this`pos, buf
      ensures sent == Chunks(Pairs(), 0, buf.Length) && announced == |Body(Pairs(), 0)|
      ensures |sent| == announced <==> AllFit(Pairs(), buf.Length)
      ensures |sent| == announced && count > 0 ==> ReadForm(sent) == Done(Plain(Pairs()), [])
    {
      hide Chunk, PairText, Body, Chunks, AllFit, Plain, ReadForm, Zip;
      ReadReset();
      announced := GetDataLen();
      ghost var pairs := Pairs();
      sent := [];
      while true
        invariant pos <= count && Pairs() == pairs
        invariant sent + Chunks(pairs, pos, buf.Length) == Chunks(pairs, 0, buf.Length)
        decreases count - pos
      {
        ChunksStep(pairs, pos, buf.Length);
        var trfLen := Read(buf);
        if trfLen == 0 {
          break;
        }
        sent := sent + buf[..trfLen];
        var whole := GetDataLen();
        if trfLen >= whole {
          LongPairIsAlone(pairs, pos - 1, buf.Length);
          break;
        }
      }
      NoMoreChunks(pairs, buf.Length);
      SentInFullIff(pairs, buf.Length);
    }
  }
}
