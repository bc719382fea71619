/** Sequences of which a part is overwritten. */
module Buffers {

  function Put<T>(s: seq<T>, pos: nat, bytes: seq<T>): (r: seq<T>)
    requires pos + |bytes| <= |s|
    ensures |r| == |s|
    ensures forall i :: 0 <= i < |s| ==> r[i] == if pos <= i < pos + |bytes| then bytes[i - pos] else s[i]
  {
    s[..pos] + bytes + s[pos + |bytes|..]
  }

  lemma {:induction false} MovedIsPut<T>(s: seq<T>, t: seq<T>, pos: nat, n: nat, shift: int)
    requires |s| == |t| && pos + n <= |s| && 0 <= pos - shift && pos - shift + n <= |s|
    requires forall i :: pos <= i < pos + n ==> t[i] == s[i - shift]
    requires forall i :: 0 <= i < pos || pos + n <= i < |s| ==> t[i] == s[i]
    ensures t == Put(s, pos, s[pos - shift..pos - shift + n])
  {
    forall i | 0 <= i < |s|
      ensures t[i] == Put(s, pos, s[pos - shift..pos - shift + n])[i]
    {
      if pos <= i < pos + n {
        assert s[pos - shift..pos - shift + n][i - pos] == s[i - shift];
      }
    }
  }

  lemma {:induction false} PutTwice<T>(s: seq<T>, pos: nat, a: seq<T>, b: seq<T>)
    requires pos + |a| + |b| <= |s|
    ensures Put(Put(s, pos, a), pos + |a|, b) == Put(s, pos, a + b)
  {
  }

  lemma {:induction false} PutPrefix<T>(s: seq<T>, pos: nat, bytes: seq<T>, n: nat)
    requires pos + |bytes| <= n <= |s|
    ensures Put(s, pos, bytes)[..n] == s[..pos] + bytes + s[..n][pos + |bytes|..]
  {
  }

  /** Writing a header byte, a part behind it, the header byte again, and two more parts. */
  lemma {:induction false} PutAround<T>(s: seq<T>, pos: nat, zero: T, half: T, full: T, x: seq<T>, y: seq<T>, z: seq<T>)
    requires pos + 1 + |x| + |y| + |z| <= |s|
    ensures var halfway := Put(s[pos := zero], pos, [half] + x)[pos := full];
            Put(Put(halfway, pos + 1 + |x|, y), pos + 1 + |x| + |y|, z) == Put(s, pos, [full] + x + (y + z))
  {
    hide Put;
    var halfway := Put(s[pos := zero], pos, [half] + x)[pos := full];
    assert halfway == Put(s, pos, [full] + x);
    PutTwice(halfway, pos + 1 + |x|, y, z);
    PutTwice(s, pos, [full] + x, y + z);
  }

  /** Moving `s[pos..n]` up by `hole`, writing `head` over its start and `front` into the hole: `pos + skip` is the
      first byte that survives. */
  lemma {:induction false} PutIntoHole<T>(s: seq<T>, pos: nat, n: nat, hole: nat, skip: nat, head: seq<T>, c: T,
                                          front: seq<T>)
    requires pos + skip <= n && n + hole <= |s| && head != []
    requires pos + |front| + |head| == pos + hole + skip
    requires |head| <= skip
    ensures var moved := Put(s, pos + hole, s[pos..n])[pos + |front| := c];
            Put(Put(moved, pos + |front|, head), pos, front)[..n + hole] == s[..pos] + front + (head + s[pos + skip..n])
  {
    hide Put;
    var moved := Put(s, pos + hole, s[pos..n])[pos + |front| := c];
    var written := Put(Put(moved, pos + |front|, head), pos, front);
    var want := s[..pos] + front + (head + s[pos + skip..n]);
    forall i | 0 <= i < n + hole
      ensures written[i] == want[i]
    {
      HoleAt(s, pos, n, hole, skip, head, c, front, i);
    }
  }

  lemma {:induction false} HoleAt<T>(s: seq<T>, pos: nat, n: nat, hole: nat, skip: nat, head: seq<T>, c: T,
                                     front: seq<T>,
                                     i: nat)
    requires pos + skip <= n && n + hole <= |s| && head != [] && i < n + hole
    requires pos + |front| + |head| == pos + hole + skip
    requires |head| <= skip
    ensures var moved := Put(s, pos + hole, s[pos..n])[pos + |front| := c];
            Put(Put(moved, pos + |front|, head), pos, front)[i] == (s[..pos] + front + (head + s[pos + skip..n]))[i]
  {
    if i >= pos + |front| + |head| {
      assert s[pos..n][i - pos - hole] == s[i - hole] == s[pos + skip..n][i - hole - pos - skip];
    }
  }

  /** A sequence whose end is known from `from` on: its last part, the element in front of that, and the rest. */
  lemma {:induction false} SplitEnd<T>(s: seq<T>, from: nat, start: seq<T>, x: T, end: seq<T>)
    requires from <= |s| && s[from..] == start + ([x] + end)
    ensures var n := from + |start|;
            n < |s| && s[..n][from..] == start && s[n] == x && s[n + 1..] == end
  {
    var n, area := from + |start|, s[from..];
    assert s[n] == area[|start|];
    assert s[..n][from..] == area[..|start|];
    assert s[n + 1..] == area[|start| + 1..];
  }

  /** Two sequences of the same layout are equal exactly when their parts are. */
  lemma {:induction false} PartsEqualIff<T>(h: T, a: seq<T>, b: seq<T>, x: seq<T>, y: seq<T>, c: seq<T>)
    requires |a| == |x| && |b| == |y|
    ensures [h] + a + (b + c) == [h] + x + (y + c) <==> a == x && b == y
  {
    var s, t := [h] + a + (b + c), [h] + x + (y + c);
    if s == t {
      assert a == s[1..1 + |a|] == t[1..1 + |a|] == x;
      assert b == s[1 + |a|..1 + |a| + |b|] == t[1 + |a|..1 + |a| + |b|] == y;
    }
  }
}
