/** Machine words and byte strings: the big-endian cells that a device tree
    blob is made of, C strings, and the 32-bit wrap-around of the C code. */
module Bytes {

  type byte = b: int | 0 <= b < 256

  const TWO32: int := 0x1_0000_0000
  const TWO31: int := 0x8000_0000

  type u32 = w: int | 0 <= w < 0x1_0000_0000

  /** A NUL-free byte string, what a C `char *` argument denotes. */
  type CStr = s: seq<byte> | 0 !in s

  datatype Option<+T> = None | Some(value: T)

  /** Conversion of a mathematical integer to `uint32_t`. */
  function U32(x: int): u32 {
    x % TWO32
  }

  /** Conversion of a mathematical integer to a 32-bit `int`. */
  function Int32(x: int): int {
    var w := x % TWO32;
    if w < TWO31 then w else w - TWO32
  }

  lemma SmallWord(x: int)
    requires 0 <= x < TWO31
    ensures U32(x) == x && Int32(x) == x
  {
  }

  /** FDT_TAGALIGN: round up to a multiple of four. */
  function Align4(n: nat): (r: nat)
    ensures n <= r < n + 4
  {
    4 * ((n + 3) / 4)
  }

  /** Rounding up is relative to any aligned start. */
  lemma AlignShift(a: nat, n: nat)
    requires a % 4 == 0
    ensures Align4(a + n) == a + Align4(n)
    ensures Align4(n) % 4 == 0 && (a + Align4(n)) % 4 == 0
  {
    var k := a / 4;
    assert a == 4 * k;
    assert (4 * k + n + 3) / 4 == k + (n + 3) / 4;
    assert a + Align4(n) == 4 * (k + (n + 3) / 4);
  }

  /** fdt32_ld: the big-endian cell at a byte offset. */
  function Ld32(s: seq<byte>, off: nat): u32
    requires off + 4 <= |s|
  {
    var b0: int, b1: int, b2: int := s[off], s[off + 1], s[off + 2];
    b0 * 0x100_0000 + b1 * 0x1_0000 + b2 * 0x100 + s[off + 3]
  }

  /** The four bytes that fdt32_st stores. */
  function Be32(w: u32): (s: seq<byte>)
    ensures |s| == 4 && Ld32(s, 0) == w
  {
    var hi, lo := w / 0x1_0000, w % 0x1_0000;
    assert w == hi * 0x1_0000 + lo;
    assert hi == hi / 0x100 * 0x100 + hi % 0x100;
    assert lo == lo / 0x100 * 0x100 + lo % 0x100;
    [hi / 0x100, hi % 0x100, lo / 0x100, lo % 0x100]
  }

  /** Index of the first NUL at or after `i`, or the length if there is none. */
  function FindNul(s: seq<byte>, i: nat): (r: nat)
    requires i <= |s|
    ensures i <= r <= |s|
    ensures 0 !in s[i..r]
    ensures r < |s| ==> s[r] == 0
    decreases |s| - i
  {
    if i == |s| || s[i] == 0 then i else
      var r := FindNul(s, i + 1);
      assert s[i..r] == [s[i]] + s[i + 1..r];
      r
  }

  /** The first NUL is determined by what precedes it. */
  lemma FindNulUnique(s: seq<byte>, i: nat, r: nat)
    requires i <= r < |s| && s[r] == 0 && 0 !in s[i..r]
    ensures FindNul(s, i) == r
  {
    var f := FindNul(s, i);
    assert forall k :: i <= k < r ==> s[k] == s[i..r][k - i];
    assert forall k :: i <= k < f ==> s[k] == s[i..f][k - i];
  }

  /** Two byte strings that agree on a cell hold the same word there. */
  lemma Ld32Same(s: seq<byte>, i: nat, t: seq<byte>, j: nat)
    requires i + 4 <= |s| && j + 4 <= |t|
    requires s[i..i + 4] == t[j..j + 4]
    ensures Ld32(s, i) == Ld32(t, j)
  {
    var a, b := s[i..i + 4], t[j..j + 4];
    assert a[0] == b[0] && a[1] == b[1] && a[2] == b[2] && a[3] == b[3];
  }

  /** Overwrite part of a byte string. */
  function Patch(s: seq<byte>, off: nat, t: seq<byte>): (r: seq<byte>)
    requires off + |t| <= |s|
    ensures |r| == |s|
  {
    s[..off] + t + s[off + |t|..]
  }

  lemma PatchHere(s: seq<byte>, off: nat, t: seq<byte>)
    requires off + |t| <= |s|
    ensures Patch(s, off, t)[off..off + |t|] == t
  {
  }

  lemma SliceSlice<T>(s: seq<T>, a: nat, b: nat, c: nat, d: nat)
    requires a <= b <= |s| && c <= d <= b - a
    ensures s[a..b][c..d] == s[a + c..a + d]
  {
    var l, r := s[a..b][c..d], s[a + c..a + d];
    assert |l| == |r| == d - c;
    forall i | 0 <= i < |l|
      ensures l[i] == r[i]
    {
      assert l[i] == s[a..b][c + i] == s[a + (c + i)];
    }
  }

  lemma PatchIndex(s: seq<byte>, off: nat, t: seq<byte>, i: nat)
    requires off + |t| <= |s| && i < |s|
    ensures Patch(s, off, t)[i] == if off <= i < off + |t| then t[i - off] else s[i]
  {
  }

  /** A part of a tail of a block, as a part of the whole. */
  lemma TailSlice(b: seq<byte>, base: nat, end: nat, o: nat, x: nat, y: nat)
    requires base <= end <= |b| && o + y <= end - base && x <= y
    ensures b[base..end][o..][x..y] == b[base + o + x..base + o + y]
  {
    SliceSlice(b, base, end, o, end - base);
    assert b[base..end][o..] == b[base..end][o..end - base];
    SliceSlice(b, base + o, end, x, y);
  }

  lemma TailLd32(b: seq<byte>, base: nat, end: nat, o: nat, x: nat)
    requires base <= end <= |b| && o + x + 4 <= end - base
    ensures Ld32(b[base..end][o..], x) == Ld32(b, base + o + x)
  {
    hide Ld32;
    TailSlice(b, base, end, o, x, x + 4);
    Ld32Same(b[base..end][o..], x, b, base + o + x);
  }

  lemma PrefixSlice<T>(b: seq<T>, c: seq<T>, at: nat, x: nat, y: nat)
    requires x <= y <= at <= |b| && at <= |c| && b[..at] == c[..at]
    ensures b[x..y] == c[x..y]
  {
    SliceSlice(b, 0, at, x, y);
    SliceSlice(c, 0, at, x, y);
    assert b[..at] == b[0..at] && c[..at] == c[0..at];
  }

  lemma SuffixSlice<T>(b: seq<T>, c: seq<T>, at: nat, x: nat, y: nat)
    requires |b| == |c| && at <= x <= y <= |b| && b[at..] == c[at..]
    ensures b[x..y] == c[x..y]
  {
    SliceSlice(b, at, |b|, x - at, y - at);
    SliceSlice(c, at, |b|, x - at, y - at);
    assert b[at..] == b[at..|b|] && c[at..] == c[at..|b|];
  }

  lemma AtLeast(k: int, d: nat)
    ensures k >= 1 ==> k * d >= d
    ensures k <= -1 ==> k * d <= 0 - d
    decreases if k < 0 then -k else k
  {
    if k > 1 {
      AtLeast(k - 1, d);
      assert k * d == (k - 1) * d + d;
    } else if k < -1 {
      AtLeast(k + 1, d);
      assert k * d == (k + 1) * d - d;
    }
  }

  /** Quotient and remainder are unique. */
  lemma DivUnique(x: int, d: nat, q: int, r: nat)
    requires d > 0 && x == q * d + r && r < d
    ensures x % d == r && x / d == q
  {
    var k := x / d - q;
    assert x == x / d * d + x % d;
    assert k * d == x / d * d - q * d;
    AtLeast(k, d);
  }
}
