/** A resource path as options of a message, and back (RFC 7252, section 6). */
module CoapUri {
  import opened CoapWire
  import opened CoapOptions
  import opened CoapPdu
  import opened CoapSession

  const COAP_OPTION_URI_PATH: uint16 := 11
  const SLASH: byte := 0x2F

  // ----- A path and its segments

  function FirstSlash(s: seq<byte>): (i: nat)
    ensures i <= |s| && (i < |s| ==> s[i] == SLASH)
    ensures forall j :: 0 <= j < i ==> s[j] != SLASH
  {
    if s == [] || s[0] == SLASH then 0 else 1 + FirstSlash(s[1..])
  }

  /** The pieces between the slashes; one more than there are slashes. */
  function Split(s: seq<byte>): (pieces: seq<seq<byte>>)
    ensures |pieces| > 0
    ensures forall i :: 0 <= i < |pieces| ==> |pieces[i]| <= |s| && SLASH !in pieces[i]
  {
    var i := FirstSlash(s);
    if i == |s| then [s] else [s[..i]] + Split(s[i + 1..])
  }

  function WithoutLastSlash(uri: seq<byte>): seq<byte> {
    if uri != [] && uri[|uri| - 1] == SLASH then uri[..|uri| - 1] else uri
  }

  function WithoutFirstSlash(uri: seq<byte>): seq<byte> {
    if uri != [] && uri[0] == SLASH then uri[1..] else uri
  }

  /** The options that a path is stored as. A single character is stored as it is, even a slash. */
  function Segments(uri: seq<byte>): (pieces: seq<seq<byte>>)
    ensures forall i :: 0 <= i < |pieces| ==> |pieces[i]| <= |uri|
  {
    if uri == [] then []
    else if |uri| == 1 then [uri]
    else Split(WithoutFirstSlash(WithoutLastSlash(uri)))
  }

  /** The path as it is read back: with one slash in front, and without one at the end. */
  function Normal(uri: seq<byte>): seq<byte>
    requires uri != []
  {
    [SLASH] + WithoutFirstSlash(if |uri| == 1 then uri else WithoutLastSlash(uri))
  }

  lemma {:induction false} NormalIff(uri: seq<byte>)
    requires uri != []
    ensures Normal(uri) == uri <==> uri[0] == SLASH && (|uri| == 1 || uri[|uri| - 1] != SLASH)
  {
    if uri[0] == SLASH {
      assert uri == [SLASH] + uri[1..];
    }
  }

  function PathOptions(segs: seq<seq<byte>>): (opts: seq<CoapOption>)
    ensures |opts| == |segs|
    ensures forall i :: 0 <= i < |segs| ==> opts[i] == CoapOption(COAP_OPTION_URI_PATH, segs[i])
  {
    seq(|segs|, i requires 0 <= i < |segs| => CoapOption(COAP_OPTION_URI_PATH, segs[i]))
  }

  /** A list of options with a path put behind all numbers up to that of a path. */
  function WithPath(opts: seq<CoapOption>, segs: seq<seq<byte>>): seq<CoapOption> {
    var k := InsertIndex(opts, COAP_OPTION_URI_PATH);
    opts[..k] + PathOptions(segs) + opts[k..]
  }

  lemma {:induction false} WithNextSegment(opts: seq<CoapOption>, segs: seq<seq<byte>>, seg: seq<byte>)
    ensures Insert(WithPath(opts, segs), CoapOption(COAP_OPTION_URI_PATH, seg)) == WithPath(opts, segs + [seg])
  {
    hide InsertIndex;
    var k, so := InsertIndex(opts, COAP_OPTION_URI_PATH), WithPath(opts, segs);
    var j := InsertIndex(so, COAP_OPTION_URI_PATH);
    assert k < |opts| ==> so[k + |segs|] == opts[k];
    assert j < |so| ==> so[j].number > COAP_OPTION_URI_PATH;
    assert j == k + |segs|;
    assert so[..j] == opts[..k] + PathOptions(segs) && so[j..] == opts[k..];
    assert PathOptions(segs + [seg]) == PathOptions(segs) + [CoapOption(COAP_OPTION_URI_PATH, seg)];
  }

  lemma {:induction false} WithNoSegment(opts: seq<CoapOption>)
    ensures WithPath(opts, []) == opts
  {
  }

  // ----- Storing a path

  /** What is left of a path when the scan stands at `start`, which is its beginning, a slash or the end. */
  function SegmentsFrom(uri: seq<byte>, start: nat): seq<seq<byte>>
    requires start <= |uri|
  {
    var t := WithoutLastSlash(uri);
    if start >= |t| then [] else Split(WithoutFirstSlash(t[start..]))
  }

  lemma {:induction false} NextSegment(uri: seq<byte>, start: nat)
    requires |uri| >= 2 && start < |uri| - 1
    ensures var from := if uri[start] == SLASH then start + 1 else start;
            var end := from + FirstSlash(uri[from..]);
            from <= end <= |uri| && end > start && (end < |uri| ==> uri[end] == SLASH) &&
            SegmentsFrom(uri, start) == [uri[from..end]] + SegmentsFrom(uri, end)
  {
    hide Split, FirstSlash, WithoutFirstSlash;
    var from := if uri[start] == SLASH then start + 1 else start;
    var t := WithoutLastSlash(uri);
    assert t == uri[..|t|];
    FirstSlashCut(uri[from..], |t| - from);
    assert t[from..] == uri[from..][..|t| - from];
    SegmentsStep(t, start);
    var f := FirstSlash(uri[from..]);
    assert t[from..from + f] == uri[from..from + f];
  }

  lemma {:induction false} SegmentsStep(t: seq<byte>, start: nat)
    requires start < |t|
    ensures var from := if t[start] == SLASH then start + 1 else start;
            var end := from + FirstSlash(t[from..]);
            Split(WithoutFirstSlash(t[start..])) ==
              [t[from..end]] + if end == |t| then [] else Split(WithoutFirstSlash(t[end..]))
  {
    hide Split, FirstSlash;
    var from := if t[start] == SLASH then start + 1 else start;
    var rest := t[from..];
    assert WithoutFirstSlash(t[start..]) == rest;
    SplitStep(rest);
    var f := FirstSlash(rest);
    assert rest[..f] == t[from..from + f];
    if f < |rest| {
      assert t[from + f..][1..] == rest[f + 1..];
    }
  }

  /** Cutting off a slash at the end does not move the first slash, unless that was it. */
  lemma {:induction false} FirstSlashCut(s: seq<byte>, n: nat)
    requires n == |s| || (n + 1 == |s| && s[n] == SLASH)
    ensures FirstSlash(s) <= n && FirstSlash(s[..n]) == FirstSlash(s)
  {
    var f := FirstSlash(s);
    assert f < |s| ==> s[f] == SLASH;
    assert f < n ==> s[..n][f] == SLASH;
  }

  lemma {:induction false} SplitStep(s: seq<byte>)
    ensures Split(s) == [s[..FirstSlash(s)]] + if FirstSlash(s) == |s| then [] else Split(s[FirstSlash(s) + 1..])
  {
    assert s[..|s|] == s;
  }

  lemma {:induction false} FromTheBeginning(uri: seq<byte>)
    requires |uri| >= 2
    ensures SegmentsFrom(uri, 0) == Segments(uri)
  {
    assert WithoutLastSlash(uri)[0..] == WithoutLastSlash(uri);
  }

  lemma {:induction false} AtTheEnd(uri: seq<byte>, i: nat)
    requires |uri| >= 2 && |uri| - 1 <= i <= |uri| && (i == |uri| || uri[i] == SLASH)
    ensures SegmentsFrom(uri, i) == []
  {
  }

  // ----- The scan over memory

  /** Memory that a path of `n` bytes can be read from: a zero byte comes somewhere behind its beginning, at its end at
      the earliest. */
  predicate Readable(mem: seq<byte>, n: nat) {
    n < |mem| && mem[|mem| - 1] == 0
  }

  /** `strchr`: the first slash or zero byte from a place on. */
  function FirstStop(mem: seq<byte>, from: nat): (i: nat)
    requires from < |mem| && mem[|mem| - 1] == 0
    ensures from <= i < |mem| && mem[i] in {0, SLASH}
    ensures forall j :: from <= j < i ==> mem[j] !in {0, SLASH}
    decreases |mem| - from
  {
    if mem[from] == 0 || mem[from] == SLASH then from else FirstStop(mem, from + 1)
  }

  /** Where a segment ends: at the next slash, or at the given end of the path when a zero byte comes first. */
  function SegmentEnd(mem: seq<byte>, n: nat, from: nat): (end: nat)
    requires Readable(mem, n) && from < |mem|
    ensures end < |mem|
  {
    var i := FirstStop(mem, from);
    if mem[i] == SLASH then i else n
  }

  /** How the scan goes: it stops, it adds empty segments without moving, or it copies a segment of negative length. */
  datatype Ending = Stops | Endless | Negative

  datatype Scanned = Scanned(segs: seq<seq<byte>>, ending: Ending)

  function Scan(mem: seq<byte>, n: nat, start: nat): Scanned
    requires Readable(mem, n) && start < |mem|
    decreases |mem| - start
  {
    if mem[start] == 0 || mem[start + 1] == 0 then Scanned([], Stops)
    else
      var from := if mem[start] == SLASH then start + 1 else start;
      var end := SegmentEnd(mem, n, from);
      if end < from then Scanned([], Negative)
      else if end == start then Scanned([], Endless)
      else
        var rest := Scan(mem, n, end);
        Scanned([mem[from..end]] + rest.segs, rest.ending)
  }

  function FirstZero(mem: seq<byte>): (z: nat)
    requires mem != [] && mem[|mem| - 1] == 0
    ensures z < |mem| && mem[z] == 0 && forall i :: 0 <= i < z ==> mem[i] != 0
  {
    if mem[0] == 0 then 0 else 1 + FirstZero(mem[1..])
  }

  /** The path ends at the first zero byte; or just before it, and not with a slash; or a zero byte lies in its last
      segment, not at the beginning of it, and the scan finds one right behind the path as well. */
  predicate Served(mem: seq<byte>, n: nat)
    requires Readable(mem, n) && n >= 2
  {
    var z := FirstZero(mem);
    if z < n then
      z >= 2 && mem[z - 1] != SLASH && (forall i :: z <= i < n ==> mem[i] != SLASH) && (mem[n] == 0 || mem[n + 1] == 0)
    else z == n || (z == n + 1 && mem[n - 1] != SLASH)
  }

  /** A C string whose length is given is served. */
  lemma {:induction false} StringIsServed(mem: seq<byte>, n: nat)
    requires Readable(mem, n) && n >= 2 && mem[n] == 0 && forall i :: 0 <= i < n ==> mem[i] != 0
    ensures Served(mem, n)
  {
  }

  lemma {:induction false} ScanStopsIff(mem: seq<byte>, n: nat, start: nat)
    requires Readable(mem, n) && start < |mem|
    ensures Scan(mem, n, start) == Scanned([], Stops) <==> mem[start] == 0 || mem[start + 1] == 0
  {
  }

  lemma {:induction false} ScanStep(mem: seq<byte>, n: nat, start: nat)
    requires Readable(mem, n) && start < |mem| && mem[start] != 0 && mem[start + 1] != 0
    ensures var from := if mem[start] == SLASH then start + 1 else start;
            var end := SegmentEnd(mem, n, from);
            if end < from then Scan(mem, n, start) == Scanned([], Negative)
            else if end <= start then Scan(mem, n, start) == Scanned([], Endless)
            else Scan(mem, n, start).segs == [mem[from..end]] + Scan(mem, n, end).segs &&
                 Scan(mem, n, start).ending == Scan(mem, n, end).ending
  {
  }

  lemma {:induction false} FirstSlashIs(mem: seq<byte>, n: nat, from: nat, end: nat)
    requires from <= end <= n <= |mem| && (end < n ==> mem[end] == SLASH)
    requires forall j :: from <= j < end ==> mem[j] != SLASH
    ensures mem[..n][from..] == mem[from..n] && FirstSlash(mem[from..n]) == end - from
  {
    hide FirstSlash;
    var f := FirstSlash(mem[from..n]);
    assert f < n - from ==> mem[from + f] == SLASH;
    assert end < n ==> mem[from..n][end - from] == SLASH;
  }

  /** The path has no slash from `from` on, so one segment is left. */
  lemma {:induction false} OneSegmentLeft(mem: seq<byte>, n: nat, start: nat, from: nat)
    requires n < |mem| && start < n - 1 && from == (if mem[start] == SLASH then start + 1 else start)
    requires forall j :: from <= j < n ==> mem[j] != SLASH
    ensures SegmentsFrom(mem[..n], start) == [mem[from..n]]
  {
    hide SegmentsFrom, FirstSlash;
    var u := mem[..n];
    FirstSlashIs(mem, n, from, n);
    NextSegment(u, start);
    AtTheEnd(u, n);
    assert u[from..n] == mem[from..n];
  }

  /** What remains at one place is scanned as it should be exactly when the path is served. */
  lemma {:induction false} ScanFromIff(mem: seq<byte>, n: nat, start: nat)
    requires Readable(mem, n) && n >= 2 && start < n && (start == 0 || mem[start] == SLASH)
    requires forall i :: 0 <= i < start ==> mem[i] != 0
    ensures Scan(mem, n, start) == Scanned(SegmentsFrom(mem[..n], start), Stops) <==> Served(mem, n)
    decreases |mem| - start
  {
    hide SegmentsFrom, FirstSlash;
    if start == n - 1 {
      AtTheEnd(mem[..n], start);
      ScanStopsIff(mem, n, start);
    } else if mem[start] == 0 || mem[start + 1] == 0 {
      NextSegment(mem[..n], start);
    } else {
      var from := if mem[start] == SLASH then start + 1 else start;
      var i := FirstStop(mem, from);
      if mem[i] == SLASH && i < n {
        ScanSegmentIff(mem, n, start, from, i);
      } else if mem[i] == 0 && i < n {
        ScanPastZeroIff(mem, n, start, from, i);
      } else {
        ScanLastIff(mem, n, start, from, i);
      }
    }
  }

  lemma {:induction false} ScanSegmentIff(mem: seq<byte>, n: nat, start: nat, from: nat, i: nat)
    requires Readable(mem, n) && n >= 2 && start < n - 1 && (start == 0 || mem[start] == SLASH)
    requires forall i :: 0 <= i < start ==> mem[i] != 0
    requires mem[start] != 0 && mem[start + 1] != 0 && from == (if mem[start] == SLASH then start + 1 else start)
    requires i == FirstStop(mem, from) && mem[i] == SLASH && i < n
    ensures Scan(mem, n, start) == Scanned(SegmentsFrom(mem[..n], start), Stops) <==> Served(mem, n)
    decreases |mem| - start, 0
  {
    hide SegmentsFrom, FirstSlash, Served;
    FirstSlashIs(mem, n, from, i);
    NextSegment(mem[..n], start);
    ScanFromIff(mem, n, i);
    var rest, expected := Scan(mem, n, i), SegmentsFrom(mem[..n], i);
    assert mem[..n][from..i] == mem[from..i];
    assert Scan(mem, n, start) == Scanned([mem[from..i]] + rest.segs, rest.ending);
    assert ([mem[from..i]] + rest.segs)[1..] == rest.segs && ([mem[from..i]] + expected)[1..] == expected;
  }

  /** The next stop is a zero byte within the path. */
  lemma {:induction false} ScanPastZeroIff(mem: seq<byte>, n: nat, start: nat, from: nat, i: nat)
    requires Readable(mem, n) && n >= 2 && start < n - 1 && (start == 0 || mem[start] == SLASH)
    requires forall i :: 0 <= i < start ==> mem[i] != 0
    requires mem[start] != 0 && mem[start + 1] != 0 && from == (if mem[start] == SLASH then start + 1 else start)
    requires i == FirstStop(mem, from) && mem[i] == 0 && i < n
    ensures Scan(mem, n, start) == Scanned(SegmentsFrom(mem[..n], start), Stops) <==> Served(mem, n)
  {
    hide SegmentsFrom, FirstSlash;
    hide Scan, FirstStop, FirstZero;
    ScanStopsIff(mem, n, n);
    ScanStep(mem, n, start);
    var rest := Scan(mem, n, n);
    assert forall j :: 0 <= j < i ==> mem[j] != 0;
    assert FirstZero(mem) == i;
    assert Scan(mem, n, start) == Scanned([mem[from..n]] + rest.segs, rest.ending);
    if j :| i <= j < n && mem[j] == SLASH {
      assert mem[from..n][j - from] == SLASH;
      NoSlashInside(mem[..n], start);
    } else {
      OneSegmentLeft(mem, n, start, from);
    }
  }

  /** The next stop is at the end of the path or behind it. */
  lemma {:induction false} ScanLastIff(mem: seq<byte>, n: nat, start: nat, from: nat, i: nat)
    requires Readable(mem, n) && n >= 2 && start < n - 1 && (start == 0 || mem[start] == SLASH)
    requires forall i :: 0 <= i < start ==> mem[i] != 0
    requires mem[start] != 0 && mem[start + 1] != 0 && from == (if mem[start] == SLASH then start + 1 else start)
    requires i == FirstStop(mem, from) && i >= n
    ensures Scan(mem, n, start) == Scanned(SegmentsFrom(mem[..n], start), Stops) <==> Served(mem, n)
  {
    hide SegmentsFrom, FirstSlash, Scan, FirstStop, FirstZero;
    OneSegmentLeft(mem, n, start, from);
    ScanStopsIff(mem, n, n);
    var end := SegmentEnd(mem, n, from);
    ScanStep(mem, n, start);
    var rest := Scan(mem, n, end);
    assert |mem[from..end]| == end - from && |mem[from..n]| == n - from;
    assert ([mem[from..end]] + rest.segs)[0] == mem[from..end];
    var z := FirstZero(mem);
    assert forall j :: 0 <= j < i ==> mem[j] != 0;
    assert z >= i && mem[n - 1] != SLASH;
    if end == n {
      assert Scan(mem, n, start) == Scanned([mem[from..n]], Stops) <==> rest == Scanned([], Stops);
    }
  }

  lemma {:induction false} NoSlashInside(uri: seq<byte>, start: nat)
    requires |uri| >= 2 && start < |uri| - 1
    ensures SegmentsFrom(uri, start) != [] && SLASH !in SegmentsFrom(uri, start)[0]
  {
  }

  /** The segments of a path of two or more bytes are stored, all of them and no others, exactly when it is served. */
  lemma {:induction false} ScanIsSegmentsIff(mem: seq<byte>, n: nat)
    requires Readable(mem, n) && n >= 2
    ensures Scan(mem, n, 0) == Scanned(Segments(mem[..n]), Stops) <==> Served(mem, n)
  {
    hide Scan, Segments, SegmentsFrom, Served;
    ScanFromIff(mem, n, 0);
    FromTheBeginning(mem[..n]);
  }

  /** Three paths that are not: one with a zero byte, a slice of a longer path, and a slice that is never finished. */
  lemma {:induction false} NotServed()
    ensures Scan([0x61, 0, 0x62, 0], 3, 0) == Scanned([], Stops)
    ensures Scan([0x61, 0x62, SLASH, 0x63, 0], 2, 0) == Scanned([[0x61, 0x62]], Negative)
    ensures Scan([0x61, 0x62, 0x63, 0x64, 0], 2, 0) == Scanned([[0x61, 0x62]], Endless)
  {
    var cut, open: seq<byte> := [0x61, 0x62, SLASH, 0x63, 0], [0x61, 0x62, 0x63, 0x64, 0];
    assert FirstStop(cut, 0) == 2 && FirstStop(cut, 3) == 4;
    assert Scan(cut, 2, 2) == Scanned([], Negative) && cut[0..2] == [0x61, 0x62];
    assert FirstStop(open, 0) == 4 && FirstStop(open, 2) == 4;
    assert Scan(open, 2, 2) == Scanned([], Endless) && open[0..2] == [0x61, 0x62];
  }

  /** A container that had the options `before`, `count` of them counted, holds the segments of a path as well. Only
      segments that were appended are counted. */
  ghost predicate Stored(message: CoapPDU, before: seq<CoapOption>, count: int, segs: seq<seq<byte>>)
    reads message, message.pdu
  {
    message.Valid() && message.payload == [] && message.options == WithPath(before, segs) &&
    message.numOptions == count + if Last(0, before) <= COAP_OPTION_URI_PATH then |segs| else 0
  }

  /** The container can also take more of them: its record of the largest number is right. */
  ghost predicate Growing(message: CoapPDU, before: seq<CoapOption>, count: int, segs: seq<seq<byte>>)
    reads message, message.pdu
  {
    Stored(message, before, count, segs) && Small(message.options) &&
    message.maxAddedOptionNumber == Last(0, message.options) &&
    (Last(0, message.options) <= COAP_OPTION_URI_PATH <==> Last(0, before) <= COAP_OPTION_URI_PATH)
  }

  method AddSegment(message: CoapPDU, seg: seq<byte>, ghost before: seq<CoapOption>, ghost count: int,
                    ghost segs: seq<seq<byte>>) returns (r: int)
    requires Growing(message, before, count, segs) && |seg| + 5 <= MAX16
    modifies message, message.pdu
    ensures message.token == old(message.token) && (message.pdu == old(message.pdu) || fresh(message.pdu))
    ensures message.constructedFromBuffer == old(message.constructedFromBuffer)
    ensures r == 0 ==> Growing(message, before, count, segs + [seg])
    ensures r != 0 ==> message.constructedFromBuffer && Stored(message, before, count, segs)
  {
    hide Encodes, Insert, InsertIndex, Chain, OutcomeLength, WithPath, Last;
    ghost var option := CoapOption(COAP_OPTION_URI_PATH, seg);
    AddOutcomeIsInsertIff(message.options, message.maxAddedOptionNumber, option);
    HintAfterAdding(message.options, message.maxAddedOptionNumber, option);
    InsertKeepsChain(message.options, option);
    HintAppends(message.options, message.maxAddedOptionNumber, COAP_OPTION_URI_PATH);
    WithNextSegment(before, segs, seg);
    r := message.AddOption(COAP_OPTION_URI_PATH, seg);
  }

  lemma {:induction false} NothingStored(message: CoapPDU)
    requires message.Valid() && message.payload == []
    requires Small(message.options) && message.maxAddedOptionNumber == Last(0, message.options)
    ensures Growing(message, message.options, message.numOptions, [])
  {
    hide Encodes, Chain, Last;
    WithNoSegment(message.options);
  }

  /** The loop over the segments of a path of `n` bytes. */
  method AddSegments(message: CoapPDU, mem: seq<byte>, n: nat, ghost before: seq<CoapOption>, ghost count: int)
    returns (r: int, ending: Ending, ghost added: nat)
    requires Growing(message, before, count, []) && Readable(mem, n) && |mem| <= MAX16 - 5
    modifies message, message.pdu
    ensures message.token == old(message.token) && (message.pdu == old(message.pdu) || fresh(message.pdu))
    ensures added <= |Scan(mem, n, 0).segs| && Stored(message, before, count, Scan(mem, n, 0).segs[..added])
    ensures if added < |Scan(mem, n, 0).segs| then r == 1 && ending == Stops && old(message.constructedFromBuffer)
            else r == 0 && ending == Scan(mem, n, 0).ending
  {
    hide Growing, Stored, Segments, Scan, FirstStop, SegmentEnd, WithPath, Encodes;
    ghost var segs := Scan(mem, n, 0).segs;
    var start := 0;
    added := 0;
    assert segs[..0] == [];
    while mem[start] != 0 && mem[start + 1] != 0
      invariant start < |mem| && added <= |segs|
      invariant segs == segs[..added] + Scan(mem, n, start).segs && Scan(mem, n, 0).ending == Scan(mem, n, start).ending
      invariant Growing(message, before, count, segs[..added])
      invariant message.token == old(message.token) && (message.pdu == old(message.pdu) || fresh(message.pdu))
      invariant message.constructedFromBuffer == old(message.constructedFromBuffer)
      decreases |mem| - start
    {
      ScanStep(mem, n, start);
      ghost var begin := start;
      var from := if mem[start] == SLASH then start + 1 else start;
      var end := SegmentEnd(mem, n, from);
      if end <= start || end < from {
        AllAdded(message, before, count, segs, added);
        return 0, if end < from then Negative else Endless, added;
      }
      NextOf(segs, added, mem[from..end], Scan(mem, n, end).segs);
      var ok := AddSegment(message, mem[from..end], before, count, segs[..added]);
      if ok != 0 {
        return 1, Stops, added;
      }
      added := added + 1;
      start := end;
    }
    ScanStopsIff(mem, n, start);
    AllAdded(message, before, count, segs, added);
    return 0, Stops, added;
  }

  lemma {:induction false} AllAdded(message: CoapPDU, before: seq<CoapOption>, count: int, segs: seq<seq<byte>>,
                                    added: nat)
    requires added <= |segs| && segs == segs[..added] + [] && Growing(message, before, count, segs[..added])
    ensures added == |segs| && Stored(message, before, count, segs[..added])
  {
  }

  lemma {:induction false} GrowingIsStored(message: CoapPDU, before: seq<CoapOption>, count: int, segs: seq<seq<byte>>)
    requires Growing(message, before, count, segs)
    ensures Stored(message, before, count, segs)
  {
  }

  lemma {:induction false} NextOf(segs: seq<seq<byte>>, n: nat, seg: seq<byte>, rest: seq<seq<byte>>)
    requires n <= |segs| && segs == segs[..n] + ([seg] + rest)
    ensures n < |segs| && segs[..n + 1] == segs[..n] + [seg] && segs == segs[..n + 1] + rest
  {
  }

  /** What is stored for a path of `urilen` bytes. A single byte is stored as it is, even a zero. */
  function UriScan(mem: seq<byte>, urilen: int): Scanned
    requires (urilen == 1 ==> |mem| >= 1) && (urilen >= 2 ==> Readable(mem, urilen))
  {
    if urilen <= 0 then Scanned([], Stops)
    else if urilen == 1 then Scanned([mem[..1]], Stops)
    else Scan(mem, urilen, 0)
  }

  /** 1 for an empty path or when the buffer is full, and 0 otherwise: but always 0 for a path of one byte. `added`
      counts the segments that were stored, and `ending` says where the scan would not return. */
  method SetURI(message: CoapPDU, mem: seq<byte>, urilen: int) returns (r: int, ending: Ending, ghost added: nat)
    requires message.Valid() && message.payload == [] && |mem| + 5 <= MAX16
    requires Small(message.options) && message.maxAddedOptionNumber == Last(0, message.options)
    requires (urilen == 1 ==> |mem| >= 1) && (urilen >= 2 ==> Readable(mem, urilen))
    modifies message, message.pdu
    ensures message.token == old(message.token) && (message.pdu == old(message.pdu) || fresh(message.pdu))
    ensures var segs := UriScan(mem, urilen).segs;
            added <= |segs| && Stored(message, old(message.options), old(message.numOptions), segs[..added]) &&
            r == (if urilen <= 0 || (urilen >= 2 && added < |segs|) then 1 else 0) &&
            if added < |segs| then ending == Stops && old(message.constructedFromBuffer)
            else ending == UriScan(mem, urilen).ending
  {
    hide Growing, Scan;
    ghost var before, count, segs := message.options, message.numOptions, UriScan(mem, urilen).segs;
    NothingStored(message);
    GrowingIsStored(message, before, count, []);
    assert segs[..0] == [];
    if urilen <= 0 {
      return 1, Stops, 0;
    }
    if urilen == 1 {
      assert segs[..1] == [] + [mem[..1]];
      var ok := AddSegment(message, mem[..1], before, count, []);
      if ok == 0 {
        GrowingIsStored(message, before, count, [] + [mem[..1]]);
      }
      return 0, Stops, if ok == 0 then 1 else 0;
    }
    r, ending, added := AddSegments(message, mem, urilen, before, count);
  }

  // ----- Reading a path

  predicate IsPath(option: CoapOption) {
    option.number % 0x1_0000 == COAP_OPTION_URI_PATH
  }

  predicate IsRoot(option: CoapOption) {
    IsPath(option) && option.value == [SLASH]
  }

  /** A slash, and every segment among the first `n` options with a slash behind it. */
  function Slashed(opts: seq<CoapOption>, n: nat): (text: seq<byte>)
    requires n <= |opts|
    ensures text != []
  {
    if n == 0 then [SLASH]
    else Slashed(opts, n - 1) + if IsPath(opts[n - 1]) then opts[n - 1].value + [SLASH] else []
  }

  /** The first option that stands for the root, or the number of options. */
  function RootAt(opts: seq<CoapOption>): (i: nat)
    ensures i <= |opts| && (i < |opts| ==> IsRoot(opts[i])) && forall j :: 0 <= j < i ==> !IsRoot(opts[j])
  {
    if opts == [] || IsRoot(opts[0]) then 0 else 1 + RootAt(opts[1..])
  }

  /** The path that options hold. An option for the root hides all others. */
  function UriText(opts: seq<CoapOption>): seq<byte> {
    if opts == [] then []
    else if RootAt(opts) < |opts| then [SLASH]
    else
      var text := Slashed(opts, |opts|);
      text[..|text| - 1]
  }

  /** The room that reading takes, without the zero at the end: there must be space for a slash behind the last
      segment. */
  function Room(opts: seq<CoapOption>): nat {
    if opts == [] then 0 else |Slashed(opts, RootAt(opts))| + if RootAt(opts) < |opts| then 1 else 0
  }

  lemma {:induction false} SlashedGrows(opts: seq<CoapOption>, i: nat, j: nat)
    requires i <= j <= |opts|
    ensures |Slashed(opts, i)| <= |Slashed(opts, j)|
  {
    if i < j {
      SlashedGrows(opts, i, j - 1);
    }
  }

  /** Where the loop stands when it reaches option `i`. */
  lemma {:induction false} RoomAt(opts: seq<CoapOption>, i: nat)
    requires opts != [] && i <= RootAt(opts)
    ensures Room(opts) >= |Slashed(opts, i)|
    ensures i < |opts| && IsRoot(opts[i]) ==> Room(opts) == |Slashed(opts, i)| + 1 && UriText(opts) == [SLASH]
    ensures i < |opts| && !IsRoot(opts[i]) ==> i < RootAt(opts) && Room(opts) >= |Slashed(opts, i + 1)|
    ensures i == |opts| ==>
              Room(opts) == |Slashed(opts, i)| && UriText(opts) == Slashed(opts, i)[..|Slashed(opts, i)| - 1]
  {
    hide Slashed, IsRoot;
    SlashedGrows(opts, i, RootAt(opts));
    if i < RootAt(opts) {
      SlashedGrows(opts, i + 1, RootAt(opts));
    }
  }

  datatype Progress = Continue | AtRoot | NoSpace

  /** Copies the value of an option of a path behind the text, and a slash. */
  method PutSegment(message: CoapPDU, view: OptionView, dst: array<byte>, at: nat, bytesLeft: nat,
                    ghost value: seq<byte>)
    returns (progress: Progress)
    requires dst != message.pdu && view.valuePointer + view.valueLength <= message.pdu.Length &&
             at + bytesLeft < dst.Length
    requires message.pdu[view.valuePointer..view.valuePointer + view.valueLength] == value
    modifies dst
    ensures progress.AtRoot? <==> value == [SLASH] && bytesLeft >= 1
    ensures progress.NoSpace? <==> (value == [SLASH] && bytesLeft == 0) || (value != [SLASH] && |value| + 1 > bytesLeft)
    ensures progress.AtRoot? ==> dst[..at] == old(dst[..at]) && dst[at] == 0
    ensures progress.Continue? ==> dst[..at + |value| + 1] == old(dst[..at]) + value + [SLASH]
  {
    assert |value| == 1 ==> value == [message.pdu[view.valuePointer]];
    if view.valueLength > bytesLeft {
      return NoSpace;
    }
    if view.valueLength == 1 && message.pdu[view.valuePointer] == SLASH {
      dst[at] := 0;
      return AtRoot;
    }
    forall k | 0 <= k < view.valueLength {
      dst[at + k] := message.pdu[view.valuePointer + k];
    }
    assert dst[..at + view.valueLength] == old(dst[..at]) + value;
    if bytesLeft - view.valueLength < 1 {
      return NoSpace;
    }
    dst[at + view.valueLength] := SLASH;
    return Continue;
  }

  /** Where the zero at the end of the text is: behind the path, but behind everything gathered so far when an option
      stands for the root, although the length is 1 then. */
  ghost predicate EndsAt(dst: array<byte>, opts: seq<CoapOption>)
    reads dst
  {
    var end := if RootAt(opts) < |opts| then |Slashed(opts, RootAt(opts))| else |UriText(opts)|;
    end < dst.Length && dst[end] == 0 && (RootAt(opts) < |opts| ==> dst[..end] == Slashed(opts, RootAt(opts)))
  }

  /** The loop over the options. */
  method GatherSegments(message: CoapPDU, views: seq<OptionView>, dst: array<byte>, space: nat,
                        ghost opts: seq<CoapOption>)
    returns (r: int, outLen: nat)
    requires |views| == |opts| > 0 && forall i :: 0 <= i < |opts| ==> Displays(message, views[i], opts[i])
    requires dst != message.pdu && 1 <= space < dst.Length && dst[0] == SLASH
    modifies dst
    ensures r == if Room(opts) <= space then 0 else 1
    ensures r == 0 ==> outLen == |UriText(opts)| < dst.Length && dst[..outLen] == UriText(opts)
    ensures r == 0 ==> EndsAt(dst, opts)
  {
    hide IsRoot, IsPath, Slashed, RootAt, UriText, Room;
    SlashedStart(opts);
    var at, i := 1, 0;
    while i < |views|
      invariant 0 <= i <= RootAt(opts) && 1 <= at <= space && dst[..at] == Slashed(opts, i) && dst[0] == SLASH
    {
      var view := views[i];
      assert Displays(message, view, opts[i]);
      SlashedStep(opts, i);
      RoomAt(opts, i);
      if view.number == COAP_OPTION_URI_PATH {
        var progress := PutSegment(message, view, dst, at, space - at, opts[i].value);
        if progress.NoSpace? {
          return 1, 0;
        }
        if progress.AtRoot? {
          assert dst[..1] == [dst[..at][0]];
          assert RootAt(opts) == i;
          return 0, 1;
        }
        at := at + view.valueLength + 1;
      }
      i := i + 1;
    }
    RoomAt(opts, i);
    at := at - 1;
    assert dst[..at] == dst[..at + 1][..at];
    dst[at] := 0;
    return 0, at;
  }

  ghost predicate Displays(message: CoapPDU, view: OptionView, option: CoapOption)
    reads message, message.pdu
  {
    view.number == option.number % 0x1_0000 && view.valuePointer + view.valueLength <= message.pdu.Length &&
    message.pdu[view.valuePointer..view.valuePointer + view.valueLength] == option.value
  }

  /** Reads the path that the first `numOptions` options hold into a buffer of `dstlen` bytes. */
  method GetURI(message: CoapPDU, dst: array<byte>, dstlen: int) returns (r: int, outLen: nat)
    requires message.Layout() && 0 <= message.numOptions <= |message.options|
    requires dst != message.pdu && dst.Length >= 1 && dst.Length >= dstlen
    modifies dst
    ensures r == if 1 <= dstlen && Room(message.options[..message.numOptions]) <= dstlen - 1 then 0 else 1
    ensures r == 0 ==> outLen == |UriText(message.options[..message.numOptions])| < dst.Length &&
                       dst[..outLen] == UriText(message.options[..message.numOptions])
    ensures r == 0 ==> EndsAt(dst, message.options[..message.numOptions])
  {
    hide Encodes, Chain, IsRoot, IsPath, Slashed, RootAt;
    ghost var opts := message.options[..message.numOptions];
    outLen := 0;
    if dstlen <= 0 {
      dst[0] := 0;
      return 1, 0;
    }
    if message.numOptions == 0 {
      dst[0] := 0;
      return 0, 0;
    }
    var views := message.GetOptions();
    forall i | 0 <= i < |opts|
      ensures Displays(message, views[i], opts[i])
    {
      assert message.Shows(views[i], i);
    }
    if dstlen - 1 < 1 {
      SlashedStart(opts);
      RoomAt(opts, 0);
      return 1, 0;
    }
    dst[0] := SLASH;
    r, outLen := GatherSegments(message, views, dst, dstlen - 1, opts);
  }

  lemma {:induction false} SlashedStart(opts: seq<CoapOption>)
    ensures Slashed(opts, 0) == [SLASH]
  {
  }

  lemma {:induction false} SlashedStep(opts: seq<CoapOption>, i: nat)
    requires i < |opts|
    ensures Slashed(opts, i + 1) == Slashed(opts, i) + if IsPath(opts[i]) then opts[i].value + [SLASH] else []
    ensures Slashed(opts, i)[0] == SLASH
    ensures IsPath(opts[i]) <==> opts[i].number % 0x1_0000 == COAP_OPTION_URI_PATH
    ensures IsRoot(opts[i]) <==> IsPath(opts[i]) && opts[i].value == [SLASH]
  {
    if i > 0 {
      SlashedStep(opts, i - 1);
    }
  }

  // ----- There and back

  /** Every segment with a slash behind it. */
  function Joined(segs: seq<seq<byte>>): seq<byte> {
    if segs == [] then [] else segs[0] + [SLASH] + Joined(segs[1..])
  }

  lemma {:induction false} JoinedCons(seg: seq<byte>, segs: seq<seq<byte>>)
    ensures Joined([seg] + segs) == seg + [SLASH] + Joined(segs)
  {
    assert ([seg] + segs)[1..] == segs;
  }

  lemma {:induction false} JoinSplit(s: seq<byte>)
    ensures Joined(Split(s)) == s + [SLASH]
    decreases |s|
  {
    hide FirstSlash, Split, Joined;
    SplitStep(s);
    var i := FirstSlash(s);
    assert s[..|s|] == s;
    if i < |s| {
      JoinSplit(s[i + 1..]);
      JoinedCons(s[..i], Split(s[i + 1..]));
      assert s[i] == SLASH;
      assert s[..i] + [SLASH] + (s[i + 1..] + [SLASH]) == s + [SLASH];
    } else {
      JoinedCons(s, []);
      NothingJoined();
    }
  }

  lemma {:induction false} JoinedStep(segs: seq<seq<byte>>, seg: seq<byte>)
    ensures Joined(segs + [seg]) == Joined(segs) + (seg + [SLASH])
  {
    if segs == [] {
      assert [seg][1..] == [];
    } else {
      JoinedStep(segs[1..], seg);
      assert (segs + [seg])[1..] == segs[1..] + [seg];
    }
  }

  lemma {:induction false} SlashedJoined(segs: seq<seq<byte>>, n: nat)
    requires n <= |segs|
    ensures Slashed(PathOptions(segs), n) == [SLASH] + Joined(segs[..n])
  {
    hide Slashed, Joined;
    SlashedStart(PathOptions(segs));
    if n == 0 {
      NothingJoined();
      assert segs[..0] == [];
    } else {
      SlashedJoined(segs, n - 1);
      SlashedStep(PathOptions(segs), n - 1);
      JoinedStep(segs[..n - 1], segs[n - 1]);
      assert segs[..n - 1] + [segs[n - 1]] == segs[..n];
    }
  }

  lemma {:induction false} NothingJoined()
    ensures Joined([]) == []
  {
  }

  /** A path that was stored in a message without options reads as its normal form. */
  lemma {:induction false} UriRoundTrip(uri: seq<byte>)
    requires uri != []
    ensures UriText(PathOptions(Segments(uri))) == Normal(uri)
    ensures Room(PathOptions(Segments(uri))) == |Normal(uri)| + 1
    ensures var opts := PathOptions(Segments(uri));
            RootAt(opts) < |opts| ==> |Slashed(opts, RootAt(opts))| == |Normal(uri)|
  {
    hide Slashed, RootAt, Split, Joined;
    var segs := Segments(uri);
    var opts := PathOptions(segs);
    if uri == [SLASH] {
      assert opts[0].value == [SLASH] && IsRoot(opts[0]);
      RoomAt(opts, 0);
      SlashedStart(opts);
    } else {
      SegmentsJoined(uri);
      assert forall i :: 0 <= i < |opts| ==> !IsRoot(opts[i]);
      RoomAt(opts, |opts|);
      SlashedJoined(segs, |segs|);
      assert segs[..|segs|] == segs;
      assert Slashed(opts, |opts|) == Normal(uri) + [SLASH];
    }
  }

  lemma {:induction false} SegmentsJoined(uri: seq<byte>)
    requires uri != [] && uri != [SLASH]
    ensures [SLASH] + Joined(Segments(uri)) == Normal(uri) + [SLASH] && Segments(uri) != []
    ensures forall i :: 0 <= i < |Segments(uri)| ==> Segments(uri)[i] != [SLASH]
  {
    if |uri| == 1 {
      assert Joined([uri]) == uri + [SLASH] + Joined([]);
    } else {
      hide Joined, Split;
      JoinSplit(WithoutFirstSlash(WithoutLastSlash(uri)));
      forall i | 0 <= i < |Segments(uri)|
        ensures Segments(uri)[i] != [SLASH]
      {
        assert SLASH in [SLASH];
        assert SLASH !in Split(WithoutFirstSlash(WithoutLastSlash(uri)))[i];
      }
    }
  }

  /** Storing a path in a fresh message and reading it gives its normal form, which needs two bytes more than the text:
      for every path of one byte, and every longer one that is served. */
  method StoreAndRead(order: HostOrder, mem: seq<byte>, urilen: nat, dst: array<byte>)
    returns (r: int, outLen: nat, ending: Ending)
    requires 0 < urilen < |mem| <= MAX16 - 5 && mem[|mem| - 1] == 0 && dst.Length >= 1
    modifies dst
    ensures urilen == 1 || Served(mem, urilen) ==>
              var uri := mem[..urilen];
              ending == Stops && r == (if |Normal(uri)| + 2 <= dst.Length then 0 else 1) &&
              (r == 0 ==> outLen == |Normal(uri)| < dst.Length && dst[..outLen] == Normal(uri) && dst[outLen] == 0) &&
              (r == 0 ==> (dst[..outLen] == uri <==> uri[0] == SLASH && (|uri| == 1 || uri[|uri| - 1] != SLASH)))
  {
    hide Encodes, Normal, Room, UriText, Segments, Scan, Served, EndsAt, RootAt, Slashed;
    var message := new CoapPDU(order);
    NothingAdded();
    var stored;
    ghost var added;
    stored, ending, added := SetURI(message, mem, urilen);
    ghost var uri, segs := mem[..urilen], UriScan(mem, urilen).segs;
    NormalIff(uri);
    UriRoundTrip(uri);
    if urilen >= 2 {
      ScanIsSegmentsIff(mem, urilen);
    } else {
      OneByte(uri);
    }
    assert segs[..added] == segs;
    assert WithPath([], segs) == PathOptions(segs);
    assert message.options[..message.numOptions] == message.options;
    r, outLen := GetURI(message, dst, dst.Length);
    if r == 0 && segs == Segments(uri) {
      ZeroBehind(uri, dst);
    }
  }

  /** The zero is behind the path that was stored. */
  lemma {:induction false} ZeroBehind(uri: seq<byte>, dst: array<byte>)
    requires uri != [] && EndsAt(dst, PathOptions(Segments(uri)))
    ensures |Normal(uri)| < dst.Length && dst[|Normal(uri)|] == 0
  {
    hide Normal, Segments, UriText, RootAt, Slashed, Room;
    UriRoundTrip(uri);
  }

  lemma {:induction false} OneByte(uri: seq<byte>)
    requires |uri| == 1
    ensures Segments(uri) == [uri]
  {
  }
}
