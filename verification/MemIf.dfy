/** Byte access through aligned chunks: memif_t::read and write against a flat
    memory. */
module MemIf {
  import opened Bytes

  /** Remainder, which is what `&` with a power of two less one gives. */
  function Mod(a: int, d: nat): (r: nat)
    requires d > 0
    ensures r < d
  {
    a % d
  }

  /** A memory that can only be reached in aligned chunks: every call has to be
      aligned in address and length, and reads and writes are limited in size. */
  class ChunkMemory {
    const align: nat
    const maxSize: nat
    var data: seq<byte>

    predicate Valid()
      reads this
    {
      align > 0 && maxSize > 0 && Mod(maxSize, align) == 0 && Mod(|data|, align) == 0
    }

    predicate Chunk(addr: nat, len: nat)
      reads this
      requires Valid()
    {
      Mod(addr, align) == 0 && Mod(len, align) == 0 && addr + len <= |data|
    }

    constructor (align: nat, maxSize: nat, data: seq<byte>)
      requires align > 0 && maxSize > 0 && Mod(maxSize, align) == 0 && Mod(|data|, align) == 0
      ensures Valid() && this.align == align && this.maxSize == maxSize && this.data == data
    {
      this.align, this.maxSize, this.data := align, maxSize, data;
    }

    method ReadChunk(addr: nat, len: nat) returns (chunk: seq<byte>)
      requires Valid() && Chunk(addr, len) && len <= maxSize
      ensures chunk == data[addr..addr + len]
    {
      chunk := data[addr..addr + len];
    }

    method WriteChunk(addr: nat, chunk: seq<byte>)
      requires Valid() && Chunk(addr, |chunk|) && |chunk| <= maxSize
      modifies this`data
      ensures Valid() && data == Patch(old(data), addr, chunk)
    {
      data := Patch(data, addr, chunk);
    }

    /** clear_chunk takes a range of any aligned size. */
    method ClearChunk(addr: nat, len: nat)
      requires Valid() && Chunk(addr, len)
      modifies this`data
      ensures Valid() && data == Patch(old(data), addr, Zeros(len))
    {
      data := Patch(data, addr, Zeros(len));
    }
  }

  function Zeros(n: nat): (s: seq<byte>)
    ensures |s| == n && forall i :: 0 <= i < n ==> s[i] == 0
  {
    seq(n, _ => 0)
  }

  // ---- alignment

  lemma ModUnique(x: int, d: nat, q: int, r: nat)
    requires d > 0 && x == q * d + r && r < d
    ensures Mod(x, d) == r && x / d == q
  {
    DivUnique(x, d, q, r);
  }

  lemma SumAligned(a: nat, b: nat, d: nat)
    requires d > 0 && Mod(a, d) == 0 && Mod(b, d) == 0
    ensures Mod(a + b, d) == 0
  {
    var x, y := a / d, b / d;
    assert a == x * d && b == y * d;
    assert a + b == (x + y) * d + 0;
    ModUnique(a + b, d, x + y, 0);
  }

  lemma DifferenceAligned(a: nat, b: nat, d: nat)
    requires d > 0 && Mod(a, d) == 0 && Mod(b, d) == 0 && b <= a
    ensures Mod(a - b, d) == 0
  {
    var x, y := a / d, b / d;
    assert a == x * d && b == y * d;
    assert a - b == (x - y) * d + 0;
    ModUnique(a - b, d, x - y, 0);
  }

  lemma SelfAligned(d: nat)
    requires d > 0
    ensures Mod(d, d) == 0
  {
    ModUnique(d, d, 1, 0);
  }

  lemma Remainder(a: nat, d: nat)
    requires d > 0
    ensures Mod(a, d) <= a && Mod(a - Mod(a, d), d) == 0
  {
    var q := a / d;
    assert a == q * d + Mod(a, d);
    assert q * d >= 0 by { if q >= 1 { AtLeast(q, d); } }
    ModUnique(a - Mod(a, d), d, q, 0);
  }

  /** Below an aligned bound there is room for a whole chunk. */
  lemma WholeChunk(a: nat, d: nat, size: nat)
    requires d > 0 && Mod(a, d) == 0 && Mod(size, d) == 0 && a < size
    ensures a + d <= size
  {
    DifferenceAligned(size, a, d);
    var k := (size - a) / d;
    assert size - a == k * d;
    AtLeast(k, d);
  }

  // ---- patches

  /** A chunk read, changed in part and written back changes that part. */
  lemma Merged(s: seq<byte>, base: nat, n: nat, o: nat, w: seq<byte>)
    requires base + n <= |s| && o + |w| <= n
    ensures Patch(s, base, Patch(s[base..base + n], o, w)) == Patch(s, base + o, w)
  {
    hide Patch, Mod;
    var l, r := Patch(s, base, Patch(s[base..base + n], o, w)), Patch(s, base + o, w);
    forall i | 0 <= i < |s|
      ensures l[i] == r[i]
    {
      PatchIndex(s, base, Patch(s[base..base + n], o, w), i);
      PatchIndex(s, base + o, w, i);
      if base <= i < base + n {
        PatchIndex(s[base..base + n], o, w, i - base);
      }
    }
  }

  lemma PatchMore(s: seq<byte>, at: nat, x: seq<byte>, y: seq<byte>)
    requires at + |x| + |y| <= |s|
    ensures Patch(Patch(s, at, x), at + |x|, y) == Patch(s, at, x + y)
  {
    hide Patch, Mod;
    var l, r := Patch(Patch(s, at, x), at + |x|, y), Patch(s, at, x + y);
    forall i | 0 <= i < |s|
      ensures l[i] == r[i]
    {
      PatchIndex(Patch(s, at, x), at + |x|, y, i);
      PatchIndex(s, at, x, i);
      PatchIndex(s, at, x + y, i);
    }
  }

  /** Head, then tail, then middle. */
  lemma ThreePatches(s: seq<byte>, at: nat, x: seq<byte>, y: seq<byte>, z: seq<byte>)
    requires at + |x| + |y| + |z| <= |s|
    ensures Patch(Patch(Patch(s, at, x), at + |x| + |y|, z), at + |x|, y) == Patch(s, at, x + y + z)
  {
    hide Patch, Mod;
    var l, r := Patch(Patch(Patch(s, at, x), at + |x| + |y|, z), at + |x|, y), Patch(s, at, x + y + z);
    forall i | 0 <= i < |s|
      ensures l[i] == r[i]
    {
      PatchIndex(Patch(Patch(s, at, x), at + |x| + |y|, z), at + |x|, y, i);
      PatchIndex(Patch(s, at, x), at + |x| + |y|, z, i);
      PatchIndex(s, at, x, i);
      PatchIndex(s, at, x + y + z, i);
    }
  }

  lemma PatchNothing(s: seq<byte>, at: nat)
    requires at <= |s|
    ensures Patch(s, at, []) == s
  {
  }

  /** memcpy to a buffer. */
  method CopyInto(buf: array<byte>, at: nat, s: seq<byte>)
    requires at + |s| <= buf.Length
    modifies buf
    ensures buf[..] == Patch(old(buf[..]), at, s)
  {
    hide Patch, Mod;
    forall i | 0 <= i < |s| {
      buf[at + i] := s[i];
    }
    ghost var b, want := old(buf[..]), Patch(old(buf[..]), at, s);
    forall i | 0 <= i < buf.Length
      ensures buf[i] == want[i]
    {
      PatchIndex(b, at, s, i);
      if at <= i < at + |s| {
        assert buf[at + (i - at)] == s[i - at];
      }
    }
  }

  /** Length of the unaligned head of an access. */
  function HeadLen(addr: nat, len: nat, align: nat): (h: nat)
    requires align > 0
    ensures h <= len
  {
    if len == 0 || Mod(addr, align) == 0 then 0
    else if len < align - Mod(addr, align) then len
    else align - Mod(addr, align)
  }

  /** After the head, the rest of an access is aligned. */
  lemma HeadAligns(addr: nat, len: nat, align: nat)
    requires align > 0 && HeadLen(addr, len, align) < len
    ensures Mod(addr + HeadLen(addr, len, align), align) == 0
  {
    if Mod(addr, align) != 0 {
      Remainder(addr, align);
      SelfAligned(align);
      SumAligned(addr - Mod(addr, align), align, align);
    }
  }

  /** The chunk that holds the head. */
  lemma HeadChunk(m: ChunkMemory, addr: nat, len: nat)
    requires m.Valid() && addr + len <= |m.data| && len > 0
    ensures Mod(addr, m.align) <= addr && m.Chunk(addr - Mod(addr, m.align), m.align) && m.align <= m.maxSize
  {
    Remainder(addr, m.align);
    SelfAligned(m.align);
    WholeChunk(addr - Mod(addr, m.align), m.align, |m.data|);
    WholeChunk(0, m.align, m.maxSize);
  }

  /** The chunk that holds the tail. */
  lemma TailChunk(m: ChunkMemory, addr: nat, len: nat)
    requires m.Valid() && addr + len <= |m.data| && Mod(addr, m.align) == 0 && Mod(len, m.align) != 0
    ensures Mod(len, m.align) <= len && m.Chunk(addr + (len - Mod(len, m.align)), m.align) && m.align <= m.maxSize
  {
    Remainder(len, m.align);
    SumAligned(addr, len - Mod(len, m.align), m.align);
    SelfAligned(m.align);
    WholeChunk(addr + (len - Mod(len, m.align)), m.align, |m.data|);
    WholeChunk(0, m.align, m.maxSize);
  }

  method ReadHead(m: ChunkMemory, addr: nat, len: nat, buf: array<byte>) returns (h: nat)
    requires m.Valid() && addr + len <= |m.data| && len <= buf.Length
    modifies buf
    ensures h == HeadLen(addr, len, m.align) && buf[..] == Patch(old(buf[..]), 0, m.data[addr..addr + h])
  {
    hide Patch, Mod;
    h := 0;
    PatchNothing(buf[..], 0);
    assert m.data[addr..addr] == [];
    var o := Mod(addr, m.align);
    if len > 0 && o != 0 {
      h := if len < m.align - o then len else m.align - o;
      HeadChunk(m, addr, len);
      var chunk := m.ReadChunk(addr - o, m.align);
      SliceSlice(m.data, addr - o, addr - o + m.align, o, o + h);
      CopyInto(buf, 0, chunk[o..o + h]);
    }
  }

  method ReadTail(m: ChunkMemory, addr: nat, len: nat, buf: array<byte>, b: nat) returns (rest: nat)
    requires m.Valid() && addr + len <= |m.data| && b + len <= buf.Length && (len > 0 ==> Mod(addr, m.align) == 0)
    modifies buf
    ensures rest <= len && Mod(rest, m.align) == 0
    ensures buf[..] == Patch(old(buf[..]), b + rest, m.data[addr + rest..addr + len])
  {
    hide Patch, Mod;
    Remainder(len, m.align);
    rest := len;
    PatchNothing(buf[..], b + len);
    assert m.data[addr + len..addr + len] == [];
    if Mod(len, m.align) != 0 {
      var t := Mod(len, m.align);
      rest := len - t;
      TailChunk(m, addr, len);
      var chunk := m.ReadChunk(addr + rest, m.align);
      SliceSlice(m.data, addr + rest, addr + rest + m.align, 0, t);
      assert chunk[..t] == chunk[0..t];
      CopyInto(buf, b + rest, chunk[..t]);
    }
  }

  /** One chunk of the aligned middle. */
  lemma MiddleChunk(m: ChunkMemory, addr: nat, len: nat, pos: nat, n: nat)
    requires m.Valid() && addr + len <= |m.data| && Mod(addr, m.align) == 0 && Mod(len, m.align) == 0
    requires Mod(pos, m.align) == 0 && pos < len
    requires n == if m.maxSize < len - pos then m.maxSize else len - pos
    ensures m.Chunk(addr + pos, n) && n <= m.maxSize && n > 0 && (pos + n < len ==> Mod(pos + n, m.align) == 0)
  {
    SumAligned(addr, pos, m.align);
    DifferenceAligned(len, pos, m.align);
    SumAligned(pos, m.maxSize, m.align);
  }

  method ReadMiddle(m: ChunkMemory, addr: nat, len: nat, buf: array<byte>, b: nat)
    requires m.Valid() && addr + len <= |m.data| && b + len <= buf.Length && Mod(len, m.align) == 0
    requires (len > 0 ==> Mod(addr, m.align) == 0)
    modifies buf
    ensures buf[..] == Patch(old(buf[..]), b, m.data[addr..addr + len])
  {
    hide Patch, Mod;
    ghost var b0 := buf[..];
    PatchNothing(b0, b);
    assert m.data[addr..addr] == [];
    var pos := 0;
    SelfZero(m.align);
    while pos < len
      invariant 0 <= pos <= len && (pos < len ==> Mod(pos, m.align) == 0)
      invariant buf[..] == Patch(b0, b, m.data[addr..addr + pos])
    {
      var n := if m.maxSize < len - pos then m.maxSize else len - pos;
      MiddleChunk(m, addr, len, pos, n);
      var chunk := m.ReadChunk(addr + pos, n);
      CopyInto(buf, b + pos, chunk);
      PatchMore(b0, b, m.data[addr..addr + pos], chunk);
      Joined(m.data, addr, addr + pos, addr + pos + n);
      pos := pos + n;
    }
  }

  lemma Joined(s: seq<byte>, a: nat, b: nat, c: nat)
    requires a <= b <= c <= |s|
    ensures s[a..b] + s[b..c] == s[a..c]
  {
  }

  lemma SelfZero(d: nat)
    requires d > 0
    ensures Mod(0, d) == 0
  {
  }

  /** memif_t::read: exactly the addressed bytes, at the start of the buffer. */
  method Read(m: ChunkMemory, addr: nat, len: nat, buf: array<byte>)
    requires m.Valid() && addr + len <= |m.data| && len <= buf.Length
    modifies buf
    ensures buf[..] == Patch(old(buf[..]), 0, m.data[addr..addr + len])
  {
    hide Patch, HeadLen, Mod;
    ghost var d := m.data;
    var h := ReadHead(m, addr, len, buf);
    if h < len {
      HeadAligns(addr, len, m.align);
    }
    var rest := ReadTail(m, addr + h, len - h, buf, h);
    ReadMiddle(m, addr + h, rest, buf, h);
    ghost var x, y, z := d[addr..addr + h], d[addr + h..addr + h + rest], d[addr + h + rest..addr + len];
    ThreePatches(old(buf[..]), 0, x, y, z);
    assert x + y + z == d[addr..addr + len];
  }

  // ---- writing

  method WriteHead(m: ChunkMemory, addr: nat, bytes: seq<byte>) returns (h: nat)
    requires m.Valid() && addr + |bytes| <= |m.data|
    modifies m`data
    ensures m.Valid() && h == HeadLen(addr, |bytes|, m.align) && m.data == Patch(old(m.data), addr, bytes[..h])
  {
    hide Patch, Mod;
    h := 0;
    PatchNothing(m.data, addr);
    assert bytes[..0] == [];
    var o := Mod(addr, m.align);
    if |bytes| > 0 && o != 0 {
      h := if |bytes| < m.align - o then |bytes| else m.align - o;
      HeadChunk(m, addr, |bytes|);
      var chunk := m.ReadChunk(addr - o, m.align);
      Merged(m.data, addr - o, m.align, o, bytes[..h]);
      m.WriteChunk(addr - o, Patch(chunk, o, bytes[..h]));
    }
  }

  method WriteTail(m: ChunkMemory, addr: nat, bytes: seq<byte>) returns (rest: nat)
    requires m.Valid() && addr + |bytes| <= |m.data| && (|bytes| > 0 ==> Mod(addr, m.align) == 0)
    modifies m`data
    ensures m.Valid() && rest <= |bytes| && Mod(rest, m.align) == 0
    ensures m.data == Patch(old(m.data), addr + rest, bytes[rest..])
  {
    hide Patch, Mod;
    Remainder(|bytes|, m.align);
    rest := |bytes|;
    PatchNothing(m.data, addr + |bytes|);
    assert bytes[|bytes|..] == [];
    if Mod(|bytes|, m.align) != 0 {
      rest := |bytes| - Mod(|bytes|, m.align);
      TailChunk(m, addr, |bytes|);
      var chunk := m.ReadChunk(addr + rest, m.align);
      Merged(m.data, addr + rest, m.align, 0, bytes[rest..]);
      m.WriteChunk(addr + rest, Patch(chunk, 0, bytes[rest..]));
    }
  }

  method AllZero(bytes: seq<byte>) returns (z: bool)
    ensures z <==> bytes != [] && bytes == Zeros(|bytes|)
  {
    z := |bytes| != 0;
    for i := 0 to |bytes|
      invariant z <==> bytes != [] && forall j :: 0 <= j < i ==> bytes[j] == 0
    {
      z := z && bytes[i] == 0;
    }
  }

  method WriteMiddle(m: ChunkMemory, addr: nat, bytes: seq<byte>)
    requires m.Valid() && addr + |bytes| <= |m.data| && Mod(|bytes|, m.align) == 0
    requires (|bytes| > 0 ==> Mod(addr, m.align) == 0)
    modifies m`data
    ensures m.Valid() && m.data == Patch(old(m.data), addr, bytes)
  {
    hide Patch, Mod;
    var z := AllZero(bytes);
    if z {
      m.ClearChunk(addr, |bytes|);
    } else {
      ghost var d := m.data;
      PatchNothing(d, addr);
      assert bytes[..0] == [] && bytes[..|bytes|] == bytes;
      var pos := 0;
      SelfZero(m.align);
      while pos < |bytes|
        invariant m.Valid() && |m.data| == |d| && 0 <= pos <= |bytes| && (pos < |bytes| ==> Mod(pos, m.align) == 0)
        invariant m.data == Patch(d, addr, bytes[..pos])
      {
        var n := if m.maxSize < |bytes| - pos then m.maxSize else |bytes| - pos;
        MiddleChunk(m, addr, |bytes|, pos, n);
        m.WriteChunk(addr + pos, bytes[pos..pos + n]);
        PatchMore(d, addr, bytes[..pos], bytes[pos..pos + n]);
        Joined(bytes, 0, pos, pos + n);
        pos := pos + n;
      }
    }
  }

  /** memif_t::write: exactly the addressed bytes change. */
  method Write(m: ChunkMemory, addr: nat, bytes: seq<byte>)
    requires m.Valid() && addr + |bytes| <= |m.data|
    modifies m`data
    ensures m.Valid() && m.data == Patch(old(m.data), addr, bytes)
  {
    hide Patch, HeadLen, Mod;
    ghost var d := m.data;
    var h := WriteHead(m, addr, bytes);
    if h < |bytes| {
      HeadAligns(addr, |bytes|, m.align);
    }
    var rest := WriteTail(m, addr + h, bytes[h..]);
    WriteMiddle(m, addr + h, bytes[h..][..rest]);
    ghost var x, y, z := bytes[..h], bytes[h..][..rest], bytes[h..][rest..];
    ThreePatches(d, addr, x, y, z);
    assert x + y + z == bytes;
  }

  /** What was written is what is read, and nothing else has changed. */
  method WriteThenRead(m: ChunkMemory, addr: nat, bytes: seq<byte>, buf: array<byte>)
    requires m.Valid() && addr + |bytes| <= |m.data| && |bytes| == buf.Length
    modifies m`data, buf
    ensures buf[..] == bytes && |m.data| == old(|m.data|)
    ensures forall i :: 0 <= i < |m.data| && !(addr <= i < addr + |bytes|) ==> m.data[i] == old(m.data[i])
  {
    ghost var d := m.data;
    Write(m, addr, bytes);
    PatchHere(d, addr, bytes);
    forall i | 0 <= i < |d|
      ensures m.data[i] == if addr <= i < addr + |bytes| then bytes[i - addr] else d[i]
    {
      PatchIndex(d, addr, bytes, i);
    }
    ghost var b := buf[..];
    Read(m, addr, |bytes|, buf);
    PatchHere(b, 0, bytes);
    assert buf[..][0..|bytes|] == buf[..];
  }
}
