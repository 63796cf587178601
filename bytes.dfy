/** Byte strings and the handful of Python `bytes` operations the XMP code relies on:
    `find`, `rfind`, `count`, `startswith`, slicing with Python's index rules, and the
    big-endian integer fields read and written with `struct`. */
module Bytes {

  newtype byte = x: int | 0 <= x < 256

  /** Every character of `s` is 7-bit ASCII. */
  predicate IsAscii(s: string) {
    forall i | 0 <= i < |s| :: s[i] as int < 128
  }

  /** The bytes of an ASCII literal, as Python 2 stores a `str` literal. */
  function Ascii(s: string): (r: seq<byte>)
    ensures |r| == |s|
  {
    seq(|s|, i requires 0 <= i < |s| => ((s[i] as int) % 256) as byte)
  }

  lemma AsciiExcludes(s: string, c: char)
    requires IsAscii(s) && c as int < 128 && c !in s
    ensures (c as int) as byte !in Ascii(s)
  {
    forall i | 0 <= i < |s| ensures Ascii(s)[i] != (c as int) as byte {
      assert s[i] in s;
    }
  }

  // ---------------------------------------------------------------------------
  // Python slicing

  /** Python's normalisation of a slice bound against a sequence of length `n`. */
  function SliceIndex(i: int, n: nat): (k: nat)
    ensures k <= n
    ensures 0 <= i <= n ==> k == i
  {
    if i < 0 then (if i + n < 0 then 0 else i + n) else if i > n then n else i
  }

  /** `s[a:b]` with Python's rules: negative bounds count from the end, bounds are
      clamped, and an empty slice results when the start is not before the end. */
  function PySlice(s: seq<byte>, a: int, b: int): (r: seq<byte>)
    ensures 0 <= a <= b <= |s| ==> r == s[a..b]
    ensures |r| <= |s|
  {
    var lo := SliceIndex(a, |s|);
    var hi := SliceIndex(b, |s|);
    if lo < hi then s[lo..hi] else []
  }

  function Min(a: int, b: int): int { if a < b then a else b }

  // ---------------------------------------------------------------------------
  // Searching

  predicate StartsWith(s: seq<byte>, p: seq<byte>) {
    |p| <= |s| && s[..|p|] == p
  }

  /** `p` occurs in `s` starting at index `i`. */
  predicate OccursAt(s: seq<byte>, p: seq<byte>, i: int) {
    0 <= i && i + |p| <= |s| && s[i..i + |p|] == p
  }

  /** `p` occurs nowhere in `s`. */
  ghost predicate NoOcc(s: seq<byte>, p: seq<byte>) {
    forall i :: !OccursAt(s, p, i)
  }

  /** No occurrence of `p` in `a + b` starts inside `a` and ends inside `b`. */
  ghost predicate NoStraddle(a: seq<byte>, b: seq<byte>, p: seq<byte>) {
    forall i :: 0 <= i < |a| < i + |p| ==> !OccursAt(a + b, p, i)
  }

  /** The first index at or after `i` where `p` occurs, or -1 (Python `find`). */
  function FindFrom(s: seq<byte>, p: seq<byte>, i: nat): (r: int)
    ensures r == -1 || (i <= r && OccursAt(s, p, r))
    ensures forall j :: i <= j && (r == -1 || j < r) ==> !OccursAt(s, p, j)
    decreases |s| - i
  {
    if i + |p| > |s| then -1
    else if s[i..i + |p|] == p then i
    else FindFrom(s, p, i + 1)
  }

  /** `s.find(p)`. */
  function Find(s: seq<byte>, p: seq<byte>): int {
    FindFrom(s, p, 0)
  }

  /** The last index at or before `i` where `p` occurs, or -1. */
  function RFindFrom(s: seq<byte>, p: seq<byte>, i: int): (r: int)
    ensures r == -1 || (0 <= r <= i && OccursAt(s, p, r))
    ensures forall j :: j <= i && r < j ==> !OccursAt(s, p, j)
    decreases i + 1
  {
    if i < 0 then -1
    else if OccursAt(s, p, i) then i
    else RFindFrom(s, p, i - 1)
  }

  /** `s.rfind(p)`. */
  function RFind(s: seq<byte>, p: seq<byte>): int {
    RFindFrom(s, p, |s| - |p|)
  }

  /** `s.count(p)`: non-overlapping occurrences, scanning left to right. */
  function Count(s: seq<byte>, p: seq<byte>): nat
    requires |p| > 0
    decreases |s|
  {
    if |s| < |p| then 0
    else if s[..|p|] == p then 1 + Count(s[|p|..], p)
    else Count(s[1..], p)
  }

  // ---------------------------------------------------------------------------
  // Facts about searching

  lemma FindIs(s: seq<byte>, p: seq<byte>, k: int)
    requires OccursAt(s, p, k)
    requires forall j :: 0 <= j < k ==> !OccursAt(s, p, j)
    ensures Find(s, p) == k
  {
  }

  lemma FindNone(s: seq<byte>, p: seq<byte>)
    requires NoOcc(s, p)
    ensures Find(s, p) == -1
  {
  }

  lemma RFindIs(s: seq<byte>, p: seq<byte>, k: int)
    requires OccursAt(s, p, k)
    requires forall j :: k < j ==> !OccursAt(s, p, j)
    ensures RFind(s, p) == k
  {
  }

  /** Occurrences in a concatenation that lie wholly on one side. */
  lemma OccursConcat(a: seq<byte>, b: seq<byte>, p: seq<byte>, i: int)
    ensures 0 <= i && i + |p| <= |a| ==> (OccursAt(a + b, p, i) <==> OccursAt(a, p, i))
    ensures |a| <= i ==> (OccursAt(a + b, p, i) <==> OccursAt(b, p, i - |a|))
  {
    if 0 <= i && i + |p| <= |a| {
      assert (a + b)[i..i + |p|] == a[i..i + |p|];
    }
    if |a| <= i && i + |p| <= |a| + |b| {
      assert (a + b)[i..i + |p|] == b[i - |a|..i - |a| + |p|];
    }
  }

  /** A byte of the pattern that the text lacks rules every occurrence out. */
  lemma AbsentByte(s: seq<byte>, p: seq<byte>, c: byte)
    requires c in p && c !in s
    ensures NoOcc(s, p)
  {
    forall i | OccursAt(s, p, i) ensures false {
    }
  }

  /** Nothing straddles the boundary when the first byte after it cannot continue `p`. */
  lemma NoStraddleByNext(a: seq<byte>, b: seq<byte>, p: seq<byte>)
    requires |b| > 0 && |p| > 0 && b[0] !in p[1..]
    ensures NoStraddle(a, b, p)
  {
    forall i | 0 <= i < |a| < i + |p| ensures !OccursAt(a + b, p, i) {
      var k := |a| - i;
      assert p[1..][k - 1] == p[k];
      if i + |p| <= |a + b| {
        assert (a + b)[i..i + |p|][k] == b[0];
      }
    }
  }

  /** Nothing straddles the boundary when `p` cannot start in the last `n >= |p| - 1`
      bytes of `a`. */
  lemma NoStraddleByTail(a: seq<byte>, b: seq<byte>, p: seq<byte>, n: nat)
    requires 0 < |p| && |p| - 1 <= n <= |a| && p[0] !in a[|a| - n..]
    ensures NoStraddle(a, b, p)
  {
    forall i | 0 <= i < |a| < i + |p| ensures !OccursAt(a + b, p, i) {
      assert a[|a| - n..][i - (|a| - n)] == a[i];
      if i + |p| <= |a + b| {
        assert (a + b)[i..i + |p|][0] == a[i];
      }
    }
  }

  lemma NoOccConcat(a: seq<byte>, b: seq<byte>, p: seq<byte>)
    requires NoOcc(a, p) && NoOcc(b, p) && NoStraddle(a, b, p)
    ensures NoOcc(a + b, p)
  {
    forall i ensures !OccursAt(a + b, p, i) {
      OccursConcat(a, b, p, i);
    }
  }

  /** The first occurrence in `a + b` is the first one in `b` when `a` holds none. */
  lemma FindConcatRight(a: seq<byte>, b: seq<byte>, p: seq<byte>)
    requires NoOcc(a, p) && NoStraddle(a, b, p) && Find(b, p) >= 0
    ensures Find(a + b, p) == |a| + Find(b, p)
  {
    var k := |a| + Find(b, p);
    OccursConcat(a, b, p, k);
    forall j | 0 <= j < k ensures !OccursAt(a + b, p, j) {
      OccursConcat(a, b, p, j);
    }
    FindIs(a + b, p, k);
  }

  /** Appending bytes never moves an occurrence that is already present. */
  lemma FindConcatLeft(a: seq<byte>, b: seq<byte>, p: seq<byte>)
    requires Find(a, p) >= 0
    ensures Find(a + b, p) == Find(a, p)
  {
    var k := Find(a, p);
    OccursConcat(a, b, p, k);
    forall j | 0 <= j < k ensures !OccursAt(a + b, p, j) {
      OccursConcat(a, b, p, j);
    }
    FindIs(a + b, p, k);
  }

  lemma {:induction false} CountNoOcc(s: seq<byte>, p: seq<byte>)
    requires |p| > 0 && NoOcc(s, p)
    ensures Count(s, p) == 0
    decreases |s|
  {
    if |s| >= |p| {
      assert !OccursAt(s, p, 0);
      assert s[..|p|] == s[0..|p|];
      forall i ensures !OccursAt(s[1..], p, i) {
        OccursConcat(s[..1], s[1..], p, i + 1);
        assert s[..1] + s[1..] == s;
      }
      CountNoOcc(s[1..], p);
    }
  }

  /** Something is counted only where `p` occurs. */
  lemma {:induction false} CountOccurs(s: seq<byte>, p: seq<byte>)
    requires |p| > 0
    ensures Count(s, p) > 0 ==> !NoOcc(s, p)
    decreases |s|
  {
    if |s| < |p| {
    } else if s[..|p|] == p {
      assert OccursAt(s, p, 0);
    } else if Count(s[1..], p) > 0 {
      CountOccurs(s[1..], p);
      var i :| OccursAt(s[1..], p, i);
      assert s[1..][i..i + |p|] == s[i + 1..i + 1 + |p|];
      assert OccursAt(s, p, i + 1);
    }
  }

  /** Counting is additive across a boundary that no occurrence straddles. */
  lemma {:induction false} CountConcat(a: seq<byte>, b: seq<byte>, p: seq<byte>)
    requires |p| > 0 && NoStraddle(a, b, p)
    ensures Count(a + b, p) == Count(a, p) + Count(b, p)
    decreases |a|
  {
    if |a| == 0 {
      assert a + b == b;
    } else if |a| < |p| {
      // an occurrence at 0 would straddle, so the scan steps over a[0]
      assert !OccursAt(a + b, p, 0);
      if |a + b| >= |p| {
        assert (a + b)[..|p|] == (a + b)[0..|p|];
      }
      assert (a + b)[1..] == a[1..] + b;
      NoStraddleSuffix(a, b, p, 1);
      CountConcat(a[1..], b, p);
      assert Count(a, p) == 0 && Count(a[1..], p) == 0;
    } else if a[..|p|] == p {
      assert (a + b)[..|p|] == a[..|p|];
      assert (a + b)[|p|..] == a[|p|..] + b;
      NoStraddleSuffix(a, b, p, |p|);
      CountConcat(a[|p|..], b, p);
    } else {
      assert (a + b)[..|p|] == a[..|p|];
      assert (a + b)[1..] == a[1..] + b;
      NoStraddleSuffix(a, b, p, 1);
      CountConcat(a[1..], b, p);
    }
  }

  lemma NoStraddleSuffix(a: seq<byte>, b: seq<byte>, p: seq<byte>, d: nat)
    requires d <= |a| && NoStraddle(a, b, p)
    ensures NoStraddle(a[d..], b, p)
  {
    forall i | 0 <= i < |a| - d < i + |p| ensures !OccursAt(a[d..] + b, p, i) {
      assert a[d..] + b == (a + b)[d..];
      if OccursAt(a[d..] + b, p, i) {
        assert (a + b)[i + d..i + d + |p|] == (a[d..] + b)[i..i + |p|];
        assert OccursAt(a + b, p, i + d);
      }
    }
  }

  lemma CountPrefix(p: seq<byte>, s: seq<byte>)
    requires |p| > 0
    ensures Count(p + s, p) == 1 + Count(s, p)
  {
    assert (p + s)[..|p|] == p;
    assert (p + s)[|p|..] == s;
  }

  // ---------------------------------------------------------------------------
  // Big-endian fields (`struct` formats `>H` and `>I`)

  function DecodeBE16(s: seq<byte>): (v: nat)
    requires |s| == 2
    ensures v < 0x1_0000
  {
    s[0] as nat * 0x100 + s[1] as nat
  }

  function EncodeBE16(v: nat): (s: seq<byte>)
    requires v < 0x1_0000
    ensures |s| == 2 && DecodeBE16(s) == v
  {
    [(v / 0x100) as byte, (v % 0x100) as byte]
  }

  function DecodeBE32(s: seq<byte>): (v: nat)
    requires |s| == 4
    ensures v < 0x1_0000_0000
  {
    ((s[0] as nat * 0x100 + s[1] as nat) * 0x100 + s[2] as nat) * 0x100 + s[3] as nat
  }

  function EncodeBE32(v: nat): (s: seq<byte>)
    requires v < 0x1_0000_0000
    ensures |s| == 4 && DecodeBE32(s) == v
  {
    var q1, d := v / 0x100, v % 0x100;
    var q2, c := q1 / 0x100, q1 % 0x100;
    var a, b := q2 / 0x100, q2 % 0x100;
    assert v == q1 * 0x100 + d && q1 == q2 * 0x100 + c && q2 == a * 0x100 + b;
    [a as byte, b as byte, c as byte, d as byte]
  }
}
