/** Bytes, the fixed-width little-endian integers used by the on-disk
    formats, and the lexicographic order on byte strings that keys follow. */
module Bytes {

  type Byte = b: int | 0 <= b < 256

  type Bytes = seq<Byte>

  const U32_LIMIT: int := 0x1_0000_0000

  predicate FitsU32(n: int) {
    0 <= n < U32_LIMIT
  }

  function LE(n: nat, w: nat): (r: Bytes)
    ensures |r| == w
  {
    if w == 0 then [] else [n % 256] + LE(n / 256, w - 1)
  }

  function LEValue(s: Bytes): nat {
    if s == [] then 0 else s[0] + 256 * LEValue(s[1..])
  }

  function Pow256(w: nat): nat {
    if w == 0 then 1 else 256 * Pow256(w - 1)
  }

  lemma {:induction false} LERoundTrip(n: nat, w: nat)
    requires n < Pow256(w)
    ensures LEValue(LE(n, w)) == n
  {
    if w > 0 {
      LERoundTrip(n / 256, w - 1);
    }
  }

  lemma {:induction false} LEBound(s: Bytes)
    ensures LEValue(s) < Pow256(|s|)
  {
    if s != [] {
      LEBound(s[1..]);
    }
  }

  function U32(n: nat): (r: Bytes)
    requires n < U32_LIMIT
    ensures |r| == 4
    ensures ReadU32(r) == n
  {
    assert Pow256(4) == U32_LIMIT;
    LERoundTrip(n, 4);
    assert LE(n, 4)[..4] == LE(n, 4);
    LE(n, 4)
  }

  function ReadU32(s: Bytes): (n: nat)
    requires |s| >= 4
    ensures n < U32_LIMIT
  {
    LEBound(s[..4]);
    assert Pow256(4) == U32_LIMIT;
    LEValue(s[..4])
  }

  lemma {:induction false} ReadU32Prefix(s: Bytes, t: Bytes)
    requires |s| >= 4
    ensures ReadU32(s + t) == ReadU32(s)
  {
    assert (s + t)[..4] == s[..4];
  }

  /** A slice of a slice is a slice of the whole. */
  lemma {:induction false} SliceOfSlice<T>(s: seq<T>, a: nat, b: nat, i: nat, j: nat)
    requires a <= b <= |s| && i <= j <= b - a
    ensures s[a..b][i..j] == s[a + i..a + j]
  {
    forall k | 0 <= k < j - i
      ensures s[a..b][i..j][k] == s[a + i..a + j][k]
    {
    }
  }

  /** A slice inside the first part of a concatenation. */
  lemma {:induction false} PrefixSlice<T>(a: seq<T>, b: seq<T>, i: nat, j: nat)
    requires i <= j <= |a|
    ensures (a + b)[i..j] == a[i..j]
  {
  }

  lemma {:induction false} AppendAssoc<T>(a: seq<T>, b: seq<T>, c: seq<T>)
    ensures (a + b) + c == a + (b + c)
  {
  }

  /** Strict lexicographic order on byte strings. Python compares `str` keys
      by code point, which is the same order as comparing their UTF-8
      encodings byte by byte. */
  predicate Less(a: Bytes, b: Bytes) {
    if |a| == 0 then |b| > 0
    else if |b| == 0 then false
    else if a[0] != b[0] then a[0] < b[0]
    else Less(a[1..], b[1..])
  }

  lemma {:induction false} LessIrreflexive(a: Bytes)
    ensures !Less(a, a)
  {
    if |a| > 0 {
      LessIrreflexive(a[1..]);
    }
  }

  lemma {:induction false} LessAsymmetric(a: Bytes, b: Bytes)
    ensures Less(a, b) ==> !Less(b, a)
  {
    if |a| > 0 && |b| > 0 && a[0] == b[0] {
      LessAsymmetric(a[1..], b[1..]);
    }
  }

  lemma {:induction false} LessTransitive(a: Bytes, b: Bytes, c: Bytes)
    requires Less(a, b) && Less(b, c)
    ensures Less(a, c)
  {
    if |a| > 0 && |b| > 0 && |c| > 0 && a[0] == b[0] && b[0] == c[0] {
      LessTransitive(a[1..], b[1..], c[1..]);
    }
  }

  lemma {:induction false} LessTotal(a: Bytes, b: Bytes)
    ensures a == b || Less(a, b) || Less(b, a)
  {
    if |a| > 0 && |b| > 0 && a[0] == b[0] {
      LessTotal(a[1..], b[1..]);
      if a[1..] == b[1..] {
        assert a == [a[0]] + a[1..] && b == [b[0]] + b[1..];
      }
    }
  }

  /** A prefix comes before every longer string that extends it. */
  lemma {:induction false} PrefixLess(a: Bytes, b: Bytes)
    requires |b| > 0
    ensures Less(a, a + b)
  {
    if |a| > 0 {
      assert (a + b)[1..] == a[1..] + b;
      PrefixLess(a[1..], b);
    }
  }

  /** Order between equal-length strings survives appending anything. */
  lemma {:induction false} LessAppend(a: Bytes, b: Bytes, c: Bytes, d: Bytes)
    requires |a| == |b| && Less(a, b)
    ensures Less(a + c, b + d)
  {
    if a[0] == b[0] {
      assert (a + c)[1..] == a[1..] + c && (b + d)[1..] == b[1..] + d;
      LessAppend(a[1..], b[1..], c, d);
    }
  }

  /** Strings that differ only in their last byte compare by that byte. */
  lemma {:induction false} LessLastByte(a: Bytes, x: Byte, y: Byte)
    requires x < y
    ensures Less(a + [x], a + [y])
  {
    if a != [] {
      assert (a + [x])[1..] == a[1..] + [x] && (a + [y])[1..] == a[1..] + [y];
      LessLastByte(a[1..], x, y);
    }
  }

  /** The least element of a finite, non-empty set of byte strings. */
  lemma {:induction false} MinimumExists(s: set<Bytes>) returns (m: Bytes)
    requires s != {}
    ensures m in s && forall x :: x in s && x != m ==> Less(m, x)
  {
    var y :| y in s;
    if s == {y} {
      m := y;
    } else {
      var r := MinimumExists(s - {y});
      LessTotal(r, y);
      if Less(r, y) {
        m := r;
      } else {
        m := y;
        forall x | x in s && x != y
          ensures Less(y, x)
        {
          if x != r {
            LessTransitive(y, r, x);
          }
        }
      }
    }
  }

  /** `s` starts with `prefix` (Python's `str.startswith`). */
  predicate StartsWith(s: Bytes, prefix: Bytes) {
    |prefix| <= |s| && s[..|prefix|] == prefix
  }

  /** Keys strictly ascending: sorted and without repeats. */
  predicate StrictlyAscending(keys: seq<Bytes>) {
    forall i, j :: 0 <= i < j < |keys| ==> Less(keys[i], keys[j])
  }

  /** Keys ascending, repeats allowed (what `bisect` expects). */
  predicate Ascending(keys: seq<Bytes>) {
    forall i, j :: 0 <= i < j < |keys| ==> !Less(keys[j], keys[i])
  }

  lemma {:induction false} StrictlyAscendingIsAscending(keys: seq<Bytes>)
    requires StrictlyAscending(keys)
    ensures Ascending(keys)
  {
    forall i, j | 0 <= i < j < |keys|
      ensures !Less(keys[j], keys[i])
    {
      LessAsymmetric(keys[i], keys[j]);
    }
  }

  predicate Continuation(b: Byte) {
    0x80 <= b <= 0xBF
  }

  /** The length of the well-formed UTF-8 sequence `s` starts with, or 0:
      no overlong forms, no surrogates, nothing above U+10FFFF, as Python's
      strict decoder demands. */
  function LeadLength(s: Bytes): (n: nat)
    requires s != []
    ensures n <= 4 && n <= |s|
  {
    var b := s[0];
    if b < 0x80 then 1
    else if 0xC2 <= b <= 0xDF then
      if |s| >= 2 && Continuation(s[1]) then 2 else 0
    else if 0xE0 <= b <= 0xEF then
      if |s| >= 3 && Continuation(s[2]) &&
         (if b == 0xE0 then 0xA0 <= s[1] <= 0xBF else if b == 0xED then 0x80 <= s[1] <= 0x9F else Continuation(s[1]))
      then 3 else 0
    else if 0xF0 <= b <= 0xF4 then
      if |s| >= 4 && Continuation(s[2]) && Continuation(s[3]) &&
         (if b == 0xF0 then 0x90 <= s[1] <= 0xBF else if b == 0xF4 then 0x80 <= s[1] <= 0x8F else Continuation(s[1]))
      then 4 else 0
    else 0
  }

  /** `s.decode('utf-8')` succeeds. */
  predicate WellFormedUtf8(s: Bytes)
    decreases |s|
  {
    s == [] || (LeadLength(s) > 0 && WellFormedUtf8(s[LeadLength(s)..]))
  }

  /** ASCII text is well-formed UTF-8. */
  lemma {:induction false} AsciiWellFormed(s: Bytes)
    requires forall i :: 0 <= i < |s| ==> s[i] < 0x80
    ensures WellFormedUtf8(s)
    decreases |s|
  {
    if s != [] {
      AsciiWellFormed(s[1..]);
    }
  }

  /** Two well-formed texts put together are well-formed. */
  lemma {:induction false} WellFormedConcat(a: Bytes, b: Bytes)
    requires WellFormedUtf8(a) && WellFormedUtf8(b)
    ensures WellFormedUtf8(a + b)
    decreases |a|
  {
    if a == [] {
      assert a + b == b;
    } else {
      var k := LeadLength(a);
      assert forall i :: 0 <= i < |a| ==> (a + b)[i] == a[i];
      assert LeadLength(a + b) == k;
      assert (a + b)[k..] == a[k..] + b;
      WellFormedConcat(a[k..], b);
    }
  }

  /** A lead byte that starts no sequence, a lone continuation byte say,
      makes the text ill-formed. */
  lemma {:induction false} IllFormedLead(s: Bytes)
    requires s != [] && (0x80 <= s[0] <= 0xC1 || s[0] >= 0xF5)
    ensures !WellFormedUtf8(s)
  {
  }
}
