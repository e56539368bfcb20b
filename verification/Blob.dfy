/** A flattened device tree in memory: the header as a record, the blocks as
    bytes of one array that also holds whatever lies around the blob, and the
    token walker fdt_next_tag. */
module Blob {
  import opened Bytes
  import opened Tokens

  const FDT_MAGIC: u32 := 0xd00d_feed
  const FDT_SW_MAGIC: u32 := 0x2ff2_0112

  const ERR_NOTFOUND := 1
  const ERR_EXISTS := 2
  const ERR_NOSPACE := 3
  const ERR_BADOFFSET := 4
  const ERR_BADPHANDLE := 6
  const ERR_BADSTATE := 7
  const ERR_TRUNCATED := 8
  const ERR_BADMAGIC := 9
  const ERR_BADVERSION := 10
  const ERR_BADSTRUCTURE := 11
  const ERR_BADLAYOUT := 12
  const ERR_INTERNAL := 13
  const ERR_BADOVERLAY := 16
  const ERR_NOPHANDLES := 17
  const ERR_BADFLAGS := 18

  const HEADER_SIZE := 40
  const FIRST_SUPPORTED_VERSION: u32 := 2
  const LAST_SUPPORTED_VERSION: u32 := 17

  datatype Header = Header(
    magic: u32,
    totalsize: u32,
    offStruct: u32,
    offStrings: u32,
    offRsvmap: u32,
    version: u32,
    lastCompVersion: u32,
    sizeStrings: u32,
    sizeStruct: u32)
  {
    /** What fdt_check_header establishes about the structure block. */
    predicate Sane() {
      version >= 16 && offStruct <= totalsize < TWO31
    }
  }

  class Fdt {
    var mem: array<byte>
    var base: nat
    var hdr: Header

    constructor (mem: array<byte>, base: nat, hdr: Header)
      ensures this.mem == mem && this.base == base && this.hdr == hdr
    {
      this.mem, this.base, this.hdr := mem, base, hdr;
    }

    predicate Mapped()
      reads this
    {
      base + hdr.totalsize <= mem.Length
    }

    /** The bytes of the blob, `totalsize` of them. */
    function Buf(): (b: seq<byte>)
      requires Mapped()
      reads this, mem
    {
      mem[..][base..base + hdr.totalsize]
    }
  }

  /** Nothing outside the blob has been written since the old state. */
  twostate predicate Confined(f: Fdt)
    reads f, f.mem
  {
    && f.mem == old(f.mem)
    && forall i :: 0 <= i < f.mem.Length && !(old(f.base) <= i < old(f.base + f.hdr.totalsize)) ==>
        f.mem[i] == old(f.mem[i])
  }

  /** memcpy into the blob. */
  method Store(f: Fdt, off: nat, s: seq<byte>)
    requires f.Mapped() && off + |s| <= f.hdr.totalsize
    modifies f.mem
    ensures f.Buf() == Patch(old(f.Buf()), off, s)
    ensures Confined(f)
  {
    var at := f.base + off;
    forall i | 0 <= i < |s| {
      f.mem[at + i] := s[i];
    }
    hide Patch;
    ghost var want := Patch(old(f.Buf()), off, s);
    forall i | 0 <= i < |want|
      ensures f.Buf()[i] == want[i]
    {
      PatchIndex(old(f.Buf()), off, s, i);
      if off <= i < off + |s| {
        assert f.mem[at + (i - off)] == s[i - off];
      }
    }
  }

  /** fdt32_ld of a cell of the blob. */
  method Load32(f: Fdt, off: nat) returns (w: u32)
    requires f.Mapped() && off + 4 <= f.hdr.totalsize
    ensures w == Ld32(f.Buf(), off)
  {
    var at := f.base + off;
    var cell := f.mem[at..at + 4];
    w := Ld32(cell, 0);
    SliceSlice(f.mem[..], f.base, f.base + f.hdr.totalsize, off, off + 4);
    assert cell[0..4] == cell == f.mem[..][at..at + 4];
    Ld32Same(cell, 0, f.Buf(), off);
  }

  /** memmove within the blob: the source is read before anything is written. */
  method Move(f: Fdt, dst: nat, src: nat, n: nat)
    requires f.Mapped() && dst + n <= f.hdr.totalsize && src + n <= f.hdr.totalsize
    modifies f.mem
    ensures f.Buf() == Patch(old(f.Buf()), dst, old(f.Buf())[src..src + n])
    ensures Confined(f)
  {
    var s := f.Buf()[src..src + n];
    Store(f, dst, s);
  }

  /** The block of the blob that starts at `off`. */
  function Block(b: seq<byte>, off: nat, n: nat): (s: seq<byte>)
    requires off + n <= |b|
    ensures |s| == n
  {
    b[off..off + n]
  }

  /** The test made by fdt_offset_ptr, in the unsigned arithmetic of the code. */
  predicate OffsetPtrOk(h: Header, offset: int, len: u32) {
    var abs := U32(offset + h.offStruct);
    && !(abs < U32(offset))
    && !(U32(abs + len) < abs)
    && !(U32(abs + len) > h.totalsize)
    && (h.version >= 0x11 ==> !(U32(offset + len) < U32(offset)) && !(U32(offset + len) > h.sizeStruct))
  }

  /** What that test decides: the wrap-around comparisons add up to a plain
      bounds check, for every offset and length. */
  lemma OffsetPtrExact(h: Header, offset: int, len: u32)
    requires h.offStruct <= h.totalsize < TWO31 && -TWO31 <= offset < TWO31
    ensures OffsetPtrOk(h, offset, len) <==>
            && 0 <= offset
            && h.offStruct + offset + len <= h.totalsize
            && (h.version >= 0x11 ==> offset + len <= h.sizeStruct)
  {
    if offset >= 0 {
      assert U32(offset) == offset && U32(offset + h.offStruct) == offset + h.offStruct;
      var e := offset + h.offStruct + len;
      if e < TWO32 {
        assert U32(e) == e && U32(offset + len) == offset + len;
      } else {
        assert U32(e) == e - TWO32;
      }
    } else {
      assert U32(offset) == offset + TWO32;
      var a := offset + h.offStruct;
      if a >= 0 {
        assert U32(a) == a;
      } else {
        assert U32(a) == a + TWO32;
        var e := a + TWO32 + len;
        if e < TWO32 {
          assert U32(e) == e;
        } else {
          assert U32(e) == e - TWO32;
        }
      }
    }
  }

  /** The name loop of fdt_next_tag: the offset just past the NUL. */
  function NameScan(h: Header, b: seq<byte>, offset: nat): (r: Option<nat>)
    requires h.Sane() && |b| == h.totalsize && offset < TWO31
    ensures r.Some? ==> offset < r.value <= h.totalsize - h.offStruct
    decreases TWO31 - offset
  {
    OffsetPtrExact(h, offset, 1);
    if !OffsetPtrOk(h, offset, 1) then None
    else if b[h.offStruct + offset] == 0 then Some(offset + 1)
    else NameScan(h, b, offset + 1)
  }

  /** fdt_next_tag: the tag at an offset, and the next offset or a negative error. */
  function NextTag(h: Header, b: seq<byte>, start: int): (r: (u32, int))
    requires h.Sane() && |b| == h.totalsize && -TWO31 <= start < TWO31
    ensures -TWO31 <= r.1 < TWO31
  {
    OffsetPtrExact(h, start, 4);
    if !OffsetPtrOk(h, start, 4) then (FDT_END, -ERR_TRUNCATED) else
    var tag := Ld32(b, h.offStruct + start);
    var bad := (FDT_END, -ERR_BADSTRUCTURE);
    var past := TokenExtent(h, b, start, tag);
    if past.None? then bad else
    OffsetPtrExact(h, start, U32(past.value - start));
    if !OffsetPtrOk(h, start, U32(past.value - start)) then bad else
    (tag, Int32(Align4(past.value)))
  }

  /** Where the unpadded token ends, by kind of tag. */
  function TokenExtent(h: Header, b: seq<byte>, start: nat, tag: u32): (r: Option<int>)
    requires h.Sane() && |b| == h.totalsize && h.offStruct + start + 4 <= h.totalsize
    ensures r.Some? ==> -TWO31 <= r.value < TWO31
  {
    if tag == FDT_BEGIN_NODE then
      var p := NameScan(h, b, start + 4);
      if p.None? then None else Some(p.value)
    else if tag == FDT_PROP then
      OffsetPtrExact(h, start + 4, 4);
      if !OffsetPtrOk(h, start + 4, 4) then None else
      Some(Int32(start + 12 + Ld32(b, h.offStruct + start + 4)))
    else if tag == FDT_END || tag == FDT_END_NODE || tag == FDT_NOP then Some(start + 4)
    else None
  }

  /** The name loop as the code runs it: `p` is the last pointer test. */
  method SkipName(f: Fdt, from: nat) returns (p: bool, offset: int)
    requires f.Mapped() && f.hdr.Sane() && f.hdr.offStruct + from <= f.hdr.totalsize
    ensures NameScan(f.hdr, f.Buf(), from) == if p then Some(offset) else None
  {
    var h := f.hdr;
    offset := from;
    OffsetPtrExact(h, offset, 1);
    p := OffsetPtrOk(h, offset, 1);
    offset := offset + 1;
    while p && f.mem[f.base + h.offStruct + offset - 1] != 0
      invariant from < offset <= h.totalsize - h.offStruct + 1
      invariant p <==> OffsetPtrOk(h, offset - 1, 1)
      invariant p ==> h.offStruct + offset <= h.totalsize
      invariant NameScan(h, f.Buf(), from) == NameScan(h, f.Buf(), offset - 1)
      decreases TWO31 - offset
    {
      assert f.mem[f.base + h.offStruct + offset - 1] == f.Buf()[h.offStruct + offset - 1];
      OffsetPtrExact(h, offset, 1);
      p := OffsetPtrOk(h, offset, 1);
      offset := offset + 1;
    }
  }

  /** fdt_next_tag as the code runs it. */
  method FdtNextTag(f: Fdt, start: int) returns (tag: u32, next: int)
    requires f.Mapped() && f.hdr.Sane() && -TWO31 <= start < TWO31
    ensures (tag, next) == NextTag(f.hdr, f.Buf(), start)
  {
    hide Ld32;
    hide OffsetPtrOk;
    hide NameScan;
    var h := f.hdr;
    OffsetPtrExact(h, start, 4);
    next := -ERR_TRUNCATED;
    if !OffsetPtrOk(h, start, 4) {
      return FDT_END, next;
    }
    tag := Load32(f, h.offStruct + start);
    var offset := start + 4;
    next := -ERR_BADSTRUCTURE;
    if tag == FDT_BEGIN_NODE {
      var p;
      p, offset := SkipName(f, offset);
      if !p {
        return FDT_END, next;
      }
    } else if tag == FDT_PROP {
      OffsetPtrExact(h, offset, 4);
      if !OffsetPtrOk(h, offset, 4) {
        return FDT_END, next;
      }
      var len := Load32(f, h.offStruct + offset);
      offset := Int32(offset + 8 + len);
    } else if tag != FDT_END && tag != FDT_END_NODE && tag != FDT_NOP {
      return FDT_END, next;
    }
    OffsetPtrExact(h, start, U32(offset - start));
    if !OffsetPtrOk(h, start, U32(offset - start)) {
      return FDT_END, next;
    }
    next := Int32(Align4(offset));
  }

  /** The structure block named by a header. */
  function StructBlock(h: Header, b: seq<byte>): (s: seq<byte>)
    requires |b| == h.totalsize && h.offStruct + h.sizeStruct <= h.totalsize
  {
    Block(b, h.offStruct, h.sizeStruct)
  }

  lemma {:induction false} NameScanFinds(h: Header, b: seq<byte>, offset: nat, nul: nat)
    requires h.Sane() && |b| == h.totalsize && h.offStruct + h.sizeStruct <= h.totalsize
    requires offset <= nul < h.sizeStruct && b[h.offStruct + nul] == 0
    requires forall j :: h.offStruct + offset <= j < h.offStruct + nul ==> b[j] != 0
    ensures NameScan(h, b, offset) == Some(nul + 1)
    decreases nul - offset
  {
    OffsetPtrExact(h, offset, 1);
    if offset < nul {
      NameScanFinds(h, b, offset + 1, nul);
    }
  }

  /** Bytes of a token before padding. */
  function Unpadded(t: RawToken): (n: nat)
  {
    match t
    case BeginNode(name) => 4 + |name| + 1
    case Prop(_, v) => 12 + |v|
    case _ => 4
  }

  lemma UnpaddedAligns(t: RawToken)
    ensures Align4(Unpadded(t)) == t.Size()
  {
    match t
    case BeginNode(name) => AlignShift(4, |name| + 1);
    case Prop(_, v) => AlignShift(12, |v|);
    case _ =>
  }

  lemma ExtentOfName(h: Header, b: seq<byte>, start: nat, s: seq<byte>, name: seq<byte>)
    requires h.Sane() && |b| == h.totalsize && h.offStruct + h.sizeStruct <= h.totalsize
    requires start <= h.sizeStruct && s == b[h.offStruct + start..h.offStruct + h.sizeStruct]
    requires HeadToken(s) == Tok(BeginNode(name))
    ensures NameScan(h, b, start + 4) == Some(start + 4 + |name| + 1)
  {
    hide OffsetPtrOk, Align4, HeadToken, FindNul;
    HeadName(s, name);
    var at, nul := h.offStruct + start, 4 + |name|;
    SliceSlice(b, at, h.offStruct + h.sizeStruct, 4, nul);
    forall j | at + 4 <= j < at + nul
      ensures b[j] != 0
    {
      assert b[j] == name[j - at - 4];
    }
    assert b[at + nul] == s[nul];
    NameScanFinds(h, b, start + 4, start + nul);
  }

  lemma ExtentOfValue(h: Header, b: seq<byte>, start: nat, s: seq<byte>, key: u32, v: seq<byte>)
    requires h.Sane() && |b| == h.totalsize && h.offStruct + h.sizeStruct <= h.totalsize
    requires start <= h.sizeStruct && s == b[h.offStruct + start..h.offStruct + h.sizeStruct]
    requires HeadToken(s) == Tok(Prop(key, v))
    ensures TokenExtent(h, b, start, FDT_PROP) == Some(start + 12 + |v|)
  {
    hide OffsetPtrOk;
    hide Align4;
    hide FindNul;
    var at := h.offStruct + start;
    OffsetPtrExact(h, start + 4, 4);
    assert s[4..8] == b[at + 4..at + 8];
    Ld32Same(s, 4, b, at + 4);
  }

  lemma ExtentOfToken(h: Header, b: seq<byte>, start: nat, t: RawToken)
    requires h.Sane() && |b| == h.totalsize && h.offStruct + h.sizeStruct <= h.totalsize
    requires start <= h.sizeStruct
    requires HeadToken(StructBlock(h, b)[start..]) == Tok(t)
    ensures start + t.Size() <= h.sizeStruct
    ensures Ld32(b, h.offStruct + start) == t.Tag()
    ensures TokenExtent(h, b, start, t.Tag()) == Some(start + Unpadded(t))
  {
    hide OffsetPtrOk;
    var s := StructBlock(h, b)[start..];
    var at := h.offStruct + start;
    assert s == b[at..h.offStruct + h.sizeStruct];
    assert s[0..4] == b[at..at + 4];
    Ld32Same(s, 0, b, at);
    HeadTag(s, t);
    hide HeadToken;
    hide Ld32;
    hide Align4;
    if t.BeginNode? {
      ExtentOfName(h, b, start, s, t.name);
    } else if t.Prop? {
      ExtentOfValue(h, b, start, s, t.key, t.value);
    }
  }

  /** On a structure block that holds a token, fdt_next_tag reports that token's
      tag and steps over exactly its bytes. */
  lemma NextTagToken(h: Header, b: seq<byte>, start: nat, t: RawToken)
    requires h.Sane() && |b| == h.totalsize && h.offStruct + h.sizeStruct <= h.totalsize
    requires start % 4 == 0 && start <= h.sizeStruct
    requires HeadToken(StructBlock(h, b)[start..]) == Tok(t)
    ensures NextTag(h, b, start) == (t.Tag(), start + t.Size())
  {
    hide HeadToken, TokenExtent, OffsetPtrOk, Unpadded, Align4, U32, Int32;
    ExtentOfToken(h, b, start, t);
    OffsetPtrExact(h, start, 4);
    UnpaddedAligns(t);
    SmallWord(Unpadded(t));
    OffsetPtrExact(h, start, Unpadded(t));
    AlignShift(start, Unpadded(t));
    SmallWord(start + t.Size());
  }

  /** Walking a parsed structure block visits its tokens in order. */
  lemma NextTagAt(h: Header, b: seq<byte>, ts: seq<RawToken>, k: nat)
    requires h.Sane() && |b| == h.totalsize && h.offStruct + h.sizeStruct <= h.totalsize
    requires Parse(StructBlock(h, b)) == Some(ts) && k < |ts|
    ensures 0 <= Offset(ts, k) < TWO31
    ensures NextTag(h, b, Offset(ts, k)) == (ts[k].Tag(), Offset(ts, k + 1))
  {
    hide HeadToken;
    hide Parse;
    hide NextTag;
    ParseAt(StructBlock(h, b), ts, k);
    OffsetAligned(ts, k);
    NextTagToken(h, b, Offset(ts, k), ts[k]);
  }
}
