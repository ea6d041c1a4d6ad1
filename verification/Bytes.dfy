/** Byte buffers, little-endian fields and address alignment, shared by the buffer-based components. */
module Bytes {

  newtype byte = x: int | 0 <= x < 0x100

  const ALL_ONES_32: nat := 0xFFFF_FFFF

  /** The buffer m with the bytes s stored from index at on. */
  function Patch<T>(m: seq<T>, at: nat, s: seq<T>): (r: seq<T>)
    requires at + |s| <= |m|
    ensures |r| == |m|
  {
    m[..at] + s + m[at + |s|..]
  }

  /** Moving the head of what is left to the end of what is done. */
  lemma MoveHead<T>(done: seq<T>, x: T, rest: seq<T>)
    ensures done + ([x] + rest) == (done + [x]) + rest
  {
  }

  lemma PatchReads<T>(m: seq<T>, at: nat, s: seq<T>)
    requires at + |s| <= |m|
    ensures Sub(Patch(m, at, s), at, |s|) == s
  {
  }

  /** A span that a patch does not touch keeps its bytes. */
  lemma PatchKeeps<T>(m: seq<T>, at: nat, s: seq<T>, p: nat, n: nat)
    requires at + |s| <= |m| && p + n <= |m|
    requires p + n <= at || at + |s| <= p
    ensures Sub(Patch(m, at, s), p, n) == Sub(m, p, n)
  {
    var l, r := Sub(Patch(m, at, s), p, n), Sub(m, p, n);
    forall i | 0 <= i < n
      ensures l[i] == r[i]
    {
      assert l[i] == Patch(m, at, s)[p + i];
    }
  }

  /** CopyMem: stores s into the buffer from index at on. */
  method Put<T>(a: array<T>, at: nat, s: seq<T>)
    requires at + |s| <= a.Length
    modifies a
    ensures a[..] == Patch(old(a[..]), at, s)
  {
    forall i | 0 <= i < |s| {
      a[at + i] := s[i];
    }
  }

  /** The n bytes of m from position p on. */
  function Sub<T>(m: seq<T>, p: nat, n: nat): (s: seq<T>)
    requires p + n <= |m|
    ensures |s| == n
  {
    m[p..p + n]
  }

  /** The bytes of m from p on and those of m' from p' on agree over n positions. */
  ghost predicate SameSpan<T>(m: seq<T>, p: nat, m': seq<T>, p': nat, n: nat) {
    p + n <= |m| && p' + n <= |m'| && Sub(m, p, n) == Sub(m', p', n)
  }

  lemma SubSpan<T>(m: seq<T>, p: nat, m': seq<T>, p': nat, n: nat, at: nat, k: nat)
    requires SameSpan(m, p, m', p', n)
    requires at + k <= n
    ensures Sub(m, p + at, k) == Sub(m', p' + at, k)
  {
    SubOfSub(m, p, n, at, k);
    SubOfSub(m', p', n, at, k);
  }

  lemma SubOfSub<T>(m: seq<T>, p: nat, n: nat, at: nat, k: nat)
    requires p + n <= |m| && at + k <= n
    ensures Sub(Sub(m, p, n), at, k) == Sub(m, p + at, k)
  {
    var l, r := Sub(Sub(m, p, n), at, k), Sub(m, p + at, k);
    forall i | 0 <= i < k
      ensures l[i] == r[i]
    {
      assert l[i] == Sub(m, p, n)[at + i];
    }
  }

  function Le32(s: seq<byte>): (n: nat)
    requires |s| == 4
    ensures n <= ALL_ONES_32
  {
    s[0] as int + 0x100 * s[1] as int + 0x1_0000 * s[2] as int + 0x100_0000 * s[3] as int
  }

  /** The first byte is the least significant one. */
  lemma Le32Means(s: seq<byte>)
    requires |s| == 4
    ensures Le32(s) == s[0] as nat + 256 * (s[1] as nat + 256 * (s[2] as nat + 256 * s[3] as nat))
  {
  }

  function ToLe32(n: nat): (s: seq<byte>)
    requires n <= ALL_ONES_32
    ensures |s| == 4 && Le32(s) == n
  {
    assert n == 0x100 * (n / 0x100) + n % 0x100;
    var s := [(n % 0x100) as byte, (n / 0x100 % 0x100) as byte, (n / 0x100 / 0x100 % 0x100) as byte, (n / 0x100 / 0x100 / 0x100) as byte];
    s
  }

  /** The least multiple of a that is not below x. */
  function AlignUp(x: nat, a: nat): (r: nat)
    requires a > 0
    ensures x <= r < x + a
    ensures r % a == 0
  {
    var r := (x + a - 1) / a * a;
    MultipleMod((x + a - 1) / a, a);
    r
  }

  lemma MultipleMod(k: nat, a: nat)
    requires a > 0
    ensures k * a % a == 0
  {
    DivModUnique(k * a, a, k, 0);
  }

  lemma MulAtLeast(a: nat, k: int)
    requires k >= 1
    ensures a * k >= a
  {
    assert a * k == a * (k - 1) + a;
  }

  /** Two quotients with remainders below a are the same. */
  lemma QuotientUnique(a: nat, q: int, r: nat, q': int, r': nat)
    requires r < a && r' < a && a * q + r == a * q' + r'
    ensures q == q' && r == r'
  {
    if q > q' {
      MulAtLeast(a, q - q');
    } else if q < q' {
      MulAtLeast(a, q' - q);
    }
  }

  lemma DivModUnique(x: int, a: nat, q: int, r: nat)
    requires a > 0 && r < a && x == a * q + r
    ensures x / a == q && x % a == r
  {
    QuotientUnique(a, q, r, x / a, x % a);
  }

  /** A multiple of a in the window [x, x + a) is the aligned address. */
  lemma AlignUnique(x: nat, a: nat, r: nat)
    requires a > 0 && x <= r < x + a && r % a == 0
    ensures AlignUp(x, a) == r
  {
    var r' := AlignUp(x, a);
    var q, q' := r / a, r' / a;
    assert r == a * q && r' == a * q';
    if r < r' {
      QuotientUnique(a, q, r' - r, q', 0);
    } else {
      QuotientUnique(a, q', r - r', q, 0);
    }
  }

  /** Moving an address by a multiple of the alignment moves its aligned address by as much. */
  lemma AlignShift(x: nat, d: nat, a: nat)
    requires a > 0 && d % a == 0
    ensures AlignUp(x + d, a) == AlignUp(x, a) + d
  {
    var r := AlignUp(x, a);
    assert r == a * (r / a) && d == a * (d / a);
    assert r + d == a * (r / a + d / a);
    DivModUnique(r + d, a, r / a + d / a, 0);
    AlignUnique(x + d, a, r + d);
  }

  lemma AlignMonotone(x: nat, y: nat, a: nat)
    requires a > 0 && x <= y
    ensures AlignUp(x, a) <= AlignUp(y, a)
  {
    if y < AlignUp(x, a) {
      AlignUnique(y, a, AlignUp(x, a));
    }
  }
}
