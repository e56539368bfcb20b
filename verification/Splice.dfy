/** fdt_splice_ and what a splice on token boundaries does to the meaning of a
    blob: the memmove and the shifted header offsets amount to replacing a run
    of tokens. */
module Splice {
  import opened Bytes
  import opened Tokens
  import opened Blob
  import opened StringTable
  import opened Reader

  /** The blocks lie in order inside the blob. */
  predicate Laid(h: Header) {
    && h.totalsize < TWO31
    && h.offStruct + h.sizeStruct <= h.offStrings
    && h.offStrings + h.sizeStrings <= h.totalsize
  }

  /** fdt_splice_ */
  method SpliceAt(f: Fdt, p: nat, oldlen: nat, newlen: nat) returns (err: int)
    requires f.Mapped() && Laid(f.hdr)
    modifies f.mem
    ensures Confined(f)
    ensures var end := f.hdr.offStrings + f.hdr.sizeStrings;
            err == if p + oldlen > end then -ERR_BADOFFSET
                   else if end - oldlen + newlen > f.hdr.totalsize then -ERR_NOSPACE else 0
    ensures err != 0 ==> f.Buf() == old(f.Buf())
    ensures err == 0 ==>
      f.Buf() == Patch(old(f.Buf()), p + newlen, old(f.Buf())[p + oldlen..f.hdr.offStrings + f.hdr.sizeStrings])
  {
    var end := f.hdr.offStrings + f.hdr.sizeStrings;
    if p + oldlen > end {
      return -ERR_BADOFFSET;
    }
    if end - oldlen + newlen > f.hdr.totalsize {
      return -ERR_NOSPACE;
    }
    Move(f, p + newlen, p + oldlen, end - p - oldlen);
    return 0;
  }

  /** In place of `m` structure bytes at offset `q` there are now `n` bytes of
      any content; the rest of the blob says what it said. */
  predicate Opened(h: Header, b: seq<byte>, h': Header, b': seq<byte>, q: nat, m: nat, n: nat) {
    && Laid(h) && Laid(h') && |b| == h.totalsize == |b'|
    && q + m <= h.sizeStruct
    && h' == h.(sizeStruct := h'.sizeStruct, offStrings := h'.offStrings)
    && h'.sizeStruct == h.sizeStruct - m + n && h'.offStrings == h.offStrings - m + n
    && b'[..h.offStruct + q] == b[..h.offStruct + q]
    && b'[h.offStruct + q + n..h.offStruct + h'.sizeStruct] == b[h.offStruct + q + m..h.offStruct + h.sizeStruct]
    && StringsBlock(h', b') == StringsBlock(h, b)
  }

  /** fdt_splice_struct_ at a structure offset. */
  method SpliceStruct(f: Fdt, q: nat, oldlen: nat, newlen: nat) returns (err: int)
    requires f.Mapped() && Laid(f.hdr) && q + oldlen <= f.hdr.sizeStruct
    modifies f`hdr, f.mem
    ensures Confined(f) && f.Mapped()
    ensures err == if old(f.hdr.offStrings + f.hdr.sizeStrings - oldlen + newlen > f.hdr.totalsize)
                   then -ERR_NOSPACE else 0
    ensures err != 0 ==> f.hdr == old(f.hdr) && f.Buf() == old(f.Buf())
    ensures err == 0 ==> Opened(old(f.hdr), old(f.Buf()), f.hdr, f.Buf(), q, oldlen, newlen)
  {
    hide Patch, Opened;
    ghost var h, b := f.hdr, f.Buf();
    err := SpliceAt(f, f.hdr.offStruct + q, oldlen, newlen);
    if err != 0 {
      return;
    }
    ghost var b' := f.Buf();
    f.hdr := f.hdr.(sizeStruct := f.hdr.sizeStruct - oldlen + newlen, offStrings := f.hdr.offStrings - oldlen + newlen);
    assert f.Buf() == b';
    OpenedBySplice(h, b, f.hdr, q, oldlen, newlen);
  }

  /** A slice of a patched string that lies inside, or before, the patch. */
  lemma PatchInside(b: seq<byte>, at: nat, s: seq<byte>, x: nat, y: nat)
    requires at + |s| <= |b| && x <= y <= |s|
    ensures Patch(b, at, s)[at + x..at + y] == s[x..y]
  {
    PatchHere(b, at, s);
    SliceSlice(Patch(b, at, s), at, at + |s|, x, y);
  }

  lemma PatchBefore(b: seq<byte>, at: nat, s: seq<byte>, x: nat)
    requires at + |s| <= |b| && x <= at
    ensures Patch(b, at, s)[..x] == b[..x]
  {
  }

  lemma OpenedBySplice(h: Header, b: seq<byte>, h': Header, q: nat, m: nat, n: nat)
    requires Laid(h) && Laid(h') && |b| == h.totalsize && q + m <= h.sizeStruct
    requires h' == h.(sizeStruct := h'.sizeStruct, offStrings := h'.offStrings)
    requires h'.sizeStruct == h.sizeStruct - m + n && h'.offStrings == h.offStrings - m + n
    ensures h.offStruct + q + n + (h.offStrings + h.sizeStrings - (h.offStruct + q + m)) <= |b|
    ensures Opened(h, b, h', Patch(b, h.offStruct + q + n, b[h.offStruct + q + m..h.offStrings + h.sizeStrings]), q,
                   m, n)
  {
    hide Patch;
    var src, end := h.offStruct + q + m, h.offStrings + h.sizeStrings;
    var s, at := b[src..end], h.offStruct + q + n;
    PatchBefore(b, at, s, h.offStruct + q);
    PatchInside(b, at, s, 0, h.offStruct + h.sizeStruct - src);
    SliceSlice(b, src, end, 0, h.offStruct + h.sizeStruct - src);
    PatchInside(b, at, s, h.offStrings - src, end - src);
    SliceSlice(b, src, end, h.offStrings - src, end - src);
  }

  /** Filling the gap keeps it a gap. */
  lemma OpenedFilled(h: Header, b: seq<byte>, h': Header, b1: seq<byte>, b2: seq<byte>, q: nat, m: nat, n: nat)
    requires Opened(h, b, h', b1, q, m, n) && SameAround(b1, b2, h.offStruct + q, n)
    ensures Opened(h, b, h', b2, q, m, n)
  {
    var at := h.offStruct + q + n;
    SuffixSlice(b1, b2, at, at, h.offStruct + h'.sizeStruct);
    SuffixSlice(b1, b2, at, h'.offStrings, h'.offStrings + h'.sizeStrings);
  }

  /** Bytes in place may be taken for a gap of their own size. */
  lemma OpenedSame(h: Header, b: seq<byte>, q: nat, m: nat)
    requires Laid(h) && |b| == h.totalsize && q + m <= h.sizeStruct
    ensures Opened(h, b, h, b, q, m, m)
  {
  }

  /** A gap may be taken to start earlier. */
  lemma OpenedWider(h: Header, b: seq<byte>, h': Header, b': seq<byte>, q: nat, m: nat, n: nat, w: nat)
    requires Opened(h, b, h', b', q, m, n) && w <= q
    ensures Opened(h, b, h', b', q - w, m + w, n + w)
  {
    var at := h.offStruct + q;
    PrefixSlice(b, b', at, 0, at - w);
  }

  /** The structure block after an edit: before, the gap, after. */
  lemma OpenedBlock(h: Header, b: seq<byte>, h': Header, b': seq<byte>, q: nat, m: nat, n: nat)
    requires Opened(h, b, h', b', q, m, n)
    ensures var gap := b'[h.offStruct + q..h.offStruct + q + n];
            StructBlock(h', b') == StructBlock(h, b)[..q] + gap + StructBlock(h, b)[q + m..]
    ensures b'[..h.offStruct] == b[..h.offStruct]
  {
    var o := h.offStruct;
    PrefixSlice(b, b', o + q, 0, o);
    PrefixSlice(b, b', o + q, o, o + q);
    SliceSlice(b, o, o + h.sizeStruct, 0, q);
    SliceSlice(b, o, o + h.sizeStruct, q + m, h.sizeStruct);
    CutThree(b', o, o + q, o + q + n, o + h'.sizeStruct);
  }

  lemma CutThree(b: seq<byte>, x: nat, y: nat, z: nat, w: nat)
    requires x <= y <= z <= w <= |b|
    ensures b[x..w] == b[x..y] + b[y..z] + b[z..w]
  {
  }

  /** Replacing tokens `i` to `j`: the tokens of the block. */
  lemma EditedTokens(h: Header, b: seq<byte>, ts: seq<RawToken>, i: nat, j: nat, h': Header, b': seq<byte>,
                     us: seq<RawToken>, q: nat, m: nat, n: nat)
    requires Opened(h, b, h', b', q, m, n) && Parse(StructBlock(h, b)) == Some(ts) && i <= j <= |ts|
    requires q == Offset(ts, i) && q + m == Offset(ts, j)
    requires Parse(b'[h.offStruct + q..h.offStruct + q + n]) == Some(us)
    ensures Parse(StructBlock(h', b')) == Some(ts[..i] + us + ts[j..])
    ensures b'[..h.offStruct] == b[..h.offStruct]
  {
    hide Parse, Offset;
    OpenedBlock(h, b, h', b', q, m, n);
    ParseSplice(StructBlock(h, b), ts, i, j, b'[h.offStruct + q..h.offStruct + q + n], us);
  }

  /** Replacing tokens `i` to `j` of a blob, in bytes and in meaning. */
  lemma Edited(h: Header, b: seq<byte>, cs: seq<Call>, ts: seq<RawToken>, i: nat, j: nat,
               h': Header, b': seq<byte>, us: seq<RawToken>, ds: seq<Call>, q: nat, m: nat, n: nat)
    requires Complete(h, b, cs) && Parse(StructBlock(h, b)) == Some(ts) && i <= j <= |ts|
    requires Opened(h, b, h', b', q, m, n) && q == Offset(ts, i) && q + m == Offset(ts, j)
    requires Parse(b'[h.offStruct + q..h.offStruct + q + n]) == Some(us)
    requires AllMean(us, ds, StringsBlock(h, b), 0)
    ensures |ts| == |cs| && Complete(h', b', cs[..i] + ds + cs[j..])
    ensures b'[..h.offStruct] == b[..h.offStruct]
    ensures Parse(StructBlock(h', b')) == Some(ts[..i] + us + ts[j..])
  {
    hide Parse, AllMean, Offset;
    assert AllMean(ts, cs, StringsBlock(h, b), 0);
    EditedTokens(h, b, ts, i, j, h', b', us, q, m, n);
    AllMeanLength(ts, cs, StringsBlock(h, b));
    AllMeanSplice(ts, cs, i, j, us, ds, StringsBlock(h, b));
  }

  lemma AllMeanLength(ts: seq<RawToken>, cs: seq<Call>, strs: seq<byte>)
    requires AllMean(ts, cs, strs, 0)
    ensures |ts| == |cs|
  {
  }

  lemma AllMeanSplice(ts: seq<RawToken>, cs: seq<Call>, i: nat, j: nat, us: seq<RawToken>, ds: seq<Call>,
                      strs: seq<byte>)
    requires AllMean(ts, cs, strs, 0) && AllMean(us, ds, strs, 0) && i <= j <= |ts|
    ensures AllMean(ts[..i] + us + ts[j..], cs[..i] + ds + cs[j..], strs, 0)
  {
    hide Means;
    var vs, es := ts[..i] + us + ts[j..], cs[..i] + ds + cs[j..];
    forall x | 0 <= x < |vs|
      ensures Means(vs[x], es[x], strs, 0)
    {
      if x >= i + |us| {
        var y := x - i - |us| + j;
        assert vs[x] == ts[y] && es[x] == cs[y];
      }
    }
  }
}
