// Bytes, C strings and fixed-width little-endian integers.

module Bytes {

  type byte = x: int | 0 <= x < 256

  type Buffer = seq<byte>

  datatype Option<+T> = None | Some(value: T)

  const U16_LIMIT: int := 0x1_0000
  const U32_LIMIT: int := 0x1_0000_0000
  const U64_LIMIT: int := 0x1_0000_0000_0000_0000

  type u16 = x: int | 0 <= x < U16_LIMIT
  type u32 = x: int | 0 <= x < U32_LIMIT
  type u64 = x: int | 0 <= x < U64_LIMIT

  predicate NulFree(s: Buffer) {
    forall i :: 0 <= i < |s| ==> s[i] != 0
  }

  /** The characters of a C string in front of its terminator. */
  type CString = s: Buffer | NulFree(s)

  // ---------------------------------------------------------------- stretches of sequences

  lemma SliceOfSlice<T>(s: seq<T>, p: nat, n: nat, q: nat, k: nat)
    requires p + n <= |s| && q + k <= n
    ensures s[p..p + n][q..q + k] == s[p + q..p + q + k]
  {
    var w := s[p..p + n];
    var u, v := w[q..q + k], s[p + q..p + q + k];
    forall i | 0 <= i < k ensures u[i] == v[i] {
      assert w[q + i] == s[p + (q + i)];
    }
  }

  lemma SliceJoin<T>(s: seq<T>, a: nat, b: nat, c: nat)
    requires a <= b <= c <= |s|
    ensures s[a..b] + s[b..c] == s[a..c]
  {
  }

  lemma PrefixJoin<T>(s: seq<T>, a: nat, b: nat)
    requires a <= b <= |s|
    ensures s[..a] + s[a..b] == s[..b]
  {
  }

  // ---------------------------------------------------------------- strcmp order

  /** The strict order of strcmp on NUL-free strings: bytes are unsigned and a proper prefix is smaller. */
  predicate Less(a: Buffer, b: Buffer) {
    |b| > 0 && (|a| == 0 || a[0] < b[0] || (a[0] == b[0] && Less(a[1..], b[1..])))
  }

  lemma {:induction false} LessIrreflexive(a: Buffer)
    ensures !Less(a, a)
  {
    if |a| > 0 { LessIrreflexive(a[1..]); }
  }

  lemma {:induction false} LessTransitive(a: Buffer, b: Buffer, c: Buffer)
    requires Less(a, b) && Less(b, c)
    ensures Less(a, c)
  {
    if |a| > 0 && a[0] == b[0] == c[0] { LessTransitive(a[1..], b[1..], c[1..]); }
  }

  lemma {:induction false} LessTotal(a: Buffer, b: Buffer)
    ensures a == b || Less(a, b) || Less(b, a)
  {
    if |a| > 0 && |b| > 0 && a[0] == b[0] {
      LessTotal(a[1..], b[1..]);
      assert a == [a[0]] + a[1..] && b == [b[0]] + b[1..];
    }
  }

  lemma LessAsymmetric(a: Buffer, b: Buffer)
    requires Less(a, b)
    ensures a != b && !Less(b, a)
  {
    LessIrreflexive(a);
    if Less(b, a) { LessTransitive(a, b, a); }
  }

  /** strcmp: the sign of the comparison. */
  function Compare(a: Buffer, b: Buffer): (c: int)
    ensures c == 0 <==> a == b
    ensures c < 0 <==> Less(a, b)
    ensures c > 0 <==> Less(b, a)
  {
    LessTotal(a, b);
    LessIrreflexive(a);
    if a == b then 0
    else if Less(a, b) then
      LessAsymmetric(a, b);
      -1
    else
      1
  }

  /** What decides is the first place where the strings differ: there a has the smaller byte, or it has ended. */
  lemma {:induction false} LessAt(a: Buffer, b: Buffer, k: nat)
    requires k <= |a| && k < |b| && a[..k] == b[..k] && (k == |a| || a[k] < b[k])
    ensures Less(a, b) && Compare(a, b) < 0 && Compare(b, a) > 0
  {
    if k > 0 {
      assert a[..k][0] == b[..k][0];
      assert a[1..][..k - 1] == a[..k][1..] && b[1..][..k - 1] == b[..k][1..];
      LessAt(a[1..], b[1..], k - 1);
    }
  }

  /** The converse: as long as both agree the greater one goes on, and the smaller one has ended or goes on with a byte
      that is not greater. */
  lemma {:induction false} LessAgrees(a: Buffer, b: Buffer, k: nat)
    requires Less(a, b) && k <= |a| && k <= |b| && a[..k] == b[..k]
    ensures k < |b| && (k < |a| ==> a[k] <= b[k])
  {
    if k > 0 {
      assert a[..k][0] == b[..k][0];
      assert a[1..][..k - 1] == a[..k][1..] && b[1..][..k - 1] == b[..k][1..];
      LessAgrees(a[1..], b[1..], k - 1);
    }
  }

  // ---------------------------------------------------------------- prefixes

  /** strncmp(p, s, strlen(p)) == 0 for NUL-free strings. */
  predicate HasPrefix(s: Buffer, p: Buffer) {
    |p| <= |s| && s[..|p|] == p
  }

  /** To have a prefix is to be that prefix with something behind it. */
  lemma PrefixIff(s: Buffer, p: Buffer)
    ensures HasPrefix(s, p) <==> exists t: Buffer :: s == p + t
  {
    if HasPrefix(s, p) { assert s == p + s[|p|..]; }
  }

  /** The strings between p and an extension of p all extend p. */
  lemma {:induction false} PrefixConvex(p: Buffer, s: Buffer, t: Buffer)
    requires !Less(s, p) && Less(s, t) && HasPrefix(t, p)
    ensures HasPrefix(s, p)
  {
    if |p| > 0 {
      LessIrreflexive(p);
      assert |s| > 0 && s[0] >= p[0] && t[0] == p[0];
      assert HasPrefix(t[1..], p[1..]) by { assert t[1..][..|p[1..]|] == t[..|p|][1..]; }
      PrefixConvex(p[1..], s[1..], t[1..]);
      assert s[..|p|] == [s[0]] + s[1..][..|p| - 1];
      assert p == [p[0]] + p[1..];
    }
  }

  /** An extension of p is never below p. */
  lemma {:induction false} PrefixNotLess(p: Buffer, s: Buffer)
    requires HasPrefix(s, p)
    ensures !Less(s, p)
  {
    if |p| > 0 {
      assert s[0] == s[..|p|][0] == p[0];
      assert HasPrefix(s[1..], p[1..]) by { assert s[1..][..|p[1..]|] == s[..|p|][1..]; }
      PrefixNotLess(p[1..], s[1..]);
    }
  }

  // ---------------------------------------------------------------- C strings inside a buffer

  /** strlen at position p. The end of the buffer stops the scan like a NUL would. */
  function StrLen(d: Buffer, p: nat): (n: nat)
    requires p <= |d|
    ensures p + n <= |d|
    ensures forall i :: p <= i < p + n ==> d[i] != 0
    ensures p + n < |d| ==> d[p + n] == 0
    decreases |d| - p
  {
    if p == |d| || d[p] == 0 then 0 else 1 + StrLen(d, p + 1)
  }

  /** The C string that starts at position p. */
  function CStr(d: Buffer, p: nat): (s: Buffer)
    requires p <= |d|
    ensures NulFree(s)
  {
    d[p..p + StrLen(d, p)]
  }

  lemma StrLenIs(d: Buffer, p: nat, n: nat)
    requires p + n < |d| && d[p + n] == 0
    requires forall i :: p <= i < p + n ==> d[i] != 0
    ensures StrLen(d, p) == n
  {
  }

  /** Reading back a NUL-free string that was stored with its terminator. */
  lemma CStrStored(d: Buffer, p: nat, s: Buffer)
    requires NulFree(s) && p + |s| < |d|
    requires d[p..p + |s| + 1] == s + [0]
    ensures StrLen(d, p) == |s| && CStr(d, p) == s
  {
    var w := d[p..p + |s| + 1];
    assert forall i :: 0 <= i < |w| ==> d[p + i] == w[i];
    assert d[p + |s|] == w[|s|] == 0;
    forall i | p <= i < p + |s| ensures d[i] != 0 { assert d[i] == w[i - p] == s[i - p]; }
    StrLenIs(d, p, |s|);
    assert d[p..p + |s|] == w[..|s|] == s;
  }

  // ---------------------------------------------------------------- integers

  function U16(n: nat): (b: Buffer)
    requires n < U16_LIMIT
    ensures |b| == 2
  {
    [n % 256, n / 256]
  }

  function U32(n: nat): (b: Buffer)
    requires n < U32_LIMIT
    ensures |b| == 4
  {
    U16(n % U16_LIMIT) + U16(n / U16_LIMIT)
  }

  function U64(n: nat): (b: Buffer)
    requires n < U64_LIMIT
    ensures |b| == 8
  {
    U32(n % U32_LIMIT) + U32(n / U32_LIMIT)
  }

  function D16(b: Buffer): (n: nat)
    requires |b| == 2
    ensures n < U16_LIMIT
  {
    b[0] as int + 256 * (b[1] as int)
  }

  function D32(b: Buffer): (n: nat)
    requires |b| == 4
    ensures n < U32_LIMIT
  {
    D16(b[..2]) + U16_LIMIT * D16(b[2..])
  }

  function D64(b: Buffer): (n: nat)
    requires |b| == 8
    ensures n < U64_LIMIT
  {
    D32(b[..4]) + U32_LIMIT * D32(b[4..])
  }

  lemma RoundTrip16(n: nat)
    requires n < U16_LIMIT
    ensures D16(U16(n)) == n
  {
  }

  lemma RoundTrip32(n: nat)
    requires n < U32_LIMIT
    ensures D32(U32(n)) == n
  {
    var b := U32(n);
    assert b[..2] == U16(n % U16_LIMIT) && b[2..] == U16(n / U16_LIMIT);
    RoundTrip16(n % U16_LIMIT);
    RoundTrip16(n / U16_LIMIT);
  }

  lemma RoundTrip64(n: nat)
    requires n < U64_LIMIT
    ensures D64(U64(n)) == n
  {
    var b := U64(n);
    assert b[..4] == U32(n % U32_LIMIT) && b[4..] == U32(n / U32_LIMIT);
    RoundTrip32(n % U32_LIMIT);
    RoundTrip32(n / U32_LIMIT);
  }

  /** The numbers are little-endian: byte k counts for 256^k. */
  lemma LittleEndian(b: Buffer, x: seq<int>)
    requires |x| == |b| && forall k :: 0 <= k < |b| ==> x[k] == b[k]
    ensures |b| == 2 ==> D16(b) == x[0] + 0x100 * x[1]
    ensures |b| == 4 ==> D32(b) == x[0] + 0x100 * x[1] + 0x1_0000 * x[2] + 0x100_0000 * x[3]
    ensures |b| == 8 ==>
      D64(b) == x[0] + 0x100 * x[1] + 0x1_0000 * x[2] + 0x100_0000 * x[3] + 0x1_0000_0000 * x[4]
                + 0x100_0000_0000 * x[5] + 0x1_0000_0000_0000 * x[6] + 0x100_0000_0000_0000 * x[7]
  {
    assert |b| == 4 ==> D16(b[..2]) == x[0] + 0x100 * x[1] && D16(b[2..]) == x[2] + 0x100 * x[3];
    if |b| == 8 {
      var l, h := b[..4], b[4..];
      assert D16(l[..2]) == x[0] + 0x100 * x[1] && D16(l[2..]) == x[2] + 0x100 * x[3];
      assert D16(h[..2]) == x[4] + 0x100 * x[5] && D16(h[2..]) == x[6] + 0x100 * x[7];
    }
  }
}
