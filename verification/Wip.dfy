/** Deletion in place by no-op tags: fdt_nop_property and fdt_nop_node, and the
    fact that they delete exactly what fdt_delprop and fdt_del_node delete. */
module Wip {
  import opened Bytes
  import opened Tokens
  import opened Blob
  import opened StringTable
  import opened Reader
  import opened Hedges
  import opened TreeRead
  import opened Splice
  import opened ReadWrite

  /** fdt_nop_region_: every cell that starts inside the region becomes a NOP. */
  method NopRegion(f: Fdt, start: nat, len: nat)
    requires f.Mapped() && start + Align4(len) <= f.hdr.totalsize
    modifies f.mem
    ensures Confined(f) && SameAround(old(f.Buf()), f.Buf(), start, Align4(len))
    ensures Parse(f.Buf()[start..start + Align4(len)]) == Some(NopTokens<u32>((len + 3) / 4))
  {
    hide Parse;
    var p := start;
    ghost var n := 0;
    ParsesEmpty(f.Buf()[start..start]);
    while p < start + len
      invariant p == start + 4 * n && n <= (len + 3) / 4
      invariant Confined(f) && SameAround(old(f.Buf()), f.Buf(), start, Align4(len))
      invariant Parse(f.Buf()[start..p]) == Some(NopTokens<u32>(n))
      decreases start + len - p
    {
      ghost var b := f.Buf();
      PutWord(f, p, Nop);
      NopStep(b, f.Buf(), start, p, Align4(len), n);
      p := p + 4;
      n := n + 1;
    }
  }

  lemma NopStep(b: seq<byte>, b': seq<byte>, start: nat, p: nat, len: nat, n: nat)
    requires start <= p && p + 4 <= start + len <= |b| && SameAround(b, b', p, 4)
    requires Parse(b[start..p]) == Some(NopTokens<u32>(n)) && Parse(b'[p..p + 4]) == Some([Nop])
    ensures SameAround(b, b', start, len) && Parse(b'[start..p + 4]) == Some(NopTokens<u32>(n + 1))
  {
    hide Parse;
    PrefixSlice(b, b', p, 0, start);
    PrefixSlice(b, b', p, start, p);
    SuffixSlice(b, b', p + 4, start + len, |b|);
    assert b'[start..p + 4] == b'[start..p] + b'[p..p + 4];
    ParseConcat(b'[start..p], NopTokens<u32>(n), b'[p..p + 4], [Nop]);
    assert NopTokens<u32>(n) + [Nop] == NopTokens<u32>(n + 1);
  }

  /** Overwriting tokens `i` to `j` with as many bytes of no-ops. */
  method NopTokensAt(f: Fdt, q: nat, len: nat, ghost cs: seq<Call>, ghost i: nat, ghost j: nat) returns (ghost n: nat)
    requires f.Mapped() && Complete(f.hdr, f.Buf(), cs) && Points(f.hdr, f.Buf(), cs, i, q)
    requires i <= j <= |cs| && Parsed(f.hdr, f.Buf(), |cs|) && q + Align4(len) == Off(f.hdr, f.Buf(), j)
    modifies f.mem
    ensures Confined(f) && n == (len + 3) / 4
    ensures Complete(f.hdr, f.Buf(), cs[..i] + NopTokens<seq<byte>>(n) + cs[j..])
    ensures SameFrame(f.hdr, old(f.Buf()), f.hdr, f.Buf())
  {
    hide Parse, Denotes, Opened;
    ghost var h, b := f.hdr, f.Buf();
    ghost var ts := TokensOf(h, b, cs);
    n := (len + 3) / 4;
    ParseSplit(StructBlock(h, b), ts, j);
    OpenedSame(h, b, q, Align4(len));
    NopRegion(f, f.hdr.offStruct + q, len);
    OpenedFilled(h, b, h, b, f.Buf(), q, Align4(len), Align4(len));
    NopsMean(n, StringsBlock(h, b));
    Edited(h, b, cs, ts, i, j, h, f.Buf(), NopTokens<u32>(n), NopTokens<seq<byte>>(n), q, Align4(len), Align4(len));
  }

  lemma NopsMean(n: nat, strs: seq<byte>)
    ensures AllMean(NopTokens<u32>(n), NopTokens<seq<byte>>(n), strs, 0)
  {
  }

  /** fdt_nop_property */
  method NopProperty(f: Fdt, nodeoffset: int, name: CStr, ghost t: Hedge, ghost k: nat) returns (err: int, ghost n: nat)
    requires HasTree(f, t) && Arg(f.hdr, f.Buf(), Flat(t) + [End], k, nodeoffset)
    modifies f.mem
    ensures Confined(f)
    ensures !old(NodeArg(f, t, k, nodeoffset)) ==> err == -ERR_BADOFFSET
    ensures old(NodeArg(f, t, k, nodeoffset)) ==> err == if Lookup(BodyAt(t, k), name).Some? then 0 else -ERR_NOTFOUND
    ensures err != 0 ==> f.Buf() == old(f.Buf())
    ensures err == 0 ==> IsNode(t, k) && HasTree(f, EditBody(t, k, ReplaceProp(BodyAt(t, k), name, Nops(n))))
    ensures SameFrame(f.hdr, old(f.Buf()), f.hdr, f.Buf())
  {
    hide Parse, Align4, Complete, EditBody, PropToken;
    FrameSelf(f.hdr, f.Buf(), Flat(t) + [End]);
    n := 0;
    var off, len := FindProp(f, nodeoffset, name, t, k);
    if off < 0 {
      return off, 0;
    }
    ghost var cs, j := Flat(t) + [End], PropToken(t, k, name);
    ghost var key := PropCells(f.hdr, f.Buf(), cs, j);
    AlignShift(12, len);
    n := NopTokensAt(f, off, len + 12, cs, j, j + 1);
    FlatNops(n);
    PropGone(t, k, name, Nops(n), f.hdr, f.Buf());
    err := 0;
  }

  /** fdt_nop_node */
  method NopNode(f: Fdt, nodeoffset: int, ghost t: Hedge, ghost k: nat) returns (err: int, ghost n: nat)
    requires HasTree(f, t) && Arg(f.hdr, f.Buf(), Flat(t) + [End], k, nodeoffset)
    modifies f.mem
    ensures Confined(f)
    ensures err == 0 <==> old(NodeArg(f, t, k, nodeoffset))
    ensures err != 0 ==> err < 0 && f.Buf() == old(f.Buf())
    ensures err == 0 ==> IsNode(t, k) && HasTree(f, ReplaceAt(t, k, Nops(n)))
    ensures SameFrame(f.hdr, old(f.Buf()), f.hdr, f.Buf())
  {
    hide Parse, Complete, ReplaceAt;
    FrameSelf(f.hdr, f.Buf(), Flat(t) + [End]);
    n := 0;
    ghost var cs := Flat(t) + [End];
    var endoffset := NodeEndOffset(f, nodeoffset, t, k);
    if endoffset < 0 {
      return endoffset, 0;
    }
    PointsAligned(f.hdr, f.Buf(), cs, k, nodeoffset);
    OffMono(f.hdr, f.Buf(), cs, k, NodeEnd(t, k));
    EndAligned(f.hdr, f.Buf(), cs, NodeEnd(t, k));
    AlignedSpan(nodeoffset, endoffset);
    n := NopTokensAt(f, nodeoffset, endoffset - nodeoffset, cs, k, NodeEnd(t, k));
    FlatNops(n);
    NodeGone(t, k, Nops(n), f.hdr, f.Buf());
    err := 0;
  }

  lemma EndAligned(h: Header, b: seq<byte>, cs: seq<Call>, j: nat)
    requires Complete(h, b, cs) && j <= |cs|
    ensures Parsed(h, b, |cs|) && Off(h, b, j) % 4 == 0
  {
    hide Parse;
    OffsetAligned(Parse(StructBlock(h, b)).value, j);
  }

  lemma AlignedSpan(x: nat, y: nat)
    requires x <= y && x % 4 == 0 && y % 4 == 0
    ensures Align4(y - x) == y - x
  {
  }

  /** fdt_nop_node and fdt_del_node leave blobs that mean the same tree. */
  lemma NodeDeletionsAgree(t: Hedge, k: nat, n: nat)
    requires IsNode(t, k)
    ensures Erase(ReplaceAt(t, k, Nops(n))) == Erase(ReplaceAt(t, k, Nil))
  {
    EraseNops(n);
    EraseReplace(t, k, Nops(n), Nil);
  }

  /** So do fdt_nop_property and fdt_delprop. */
  lemma PropDeletionsAgree(t: Hedge, k: nat, name: seq<byte>, n: nat)
    requires IsNode(t, k)
    ensures Erase(EditBody(t, k, ReplaceProp(BodyAt(t, k), name, Nops(n)))) ==
            Erase(EditBody(t, k, ReplaceProp(BodyAt(t, k), name, Nil)))
  {
    EraseNops(n);
    EraseReplaceProp(BodyAt(t, k), name, Nops(n), Nil);
    var nm := Flat(t)[k].name;
    EraseReplace(t, k, NodeH(nm, ReplaceProp(BodyAt(t, k), name, Nops(n)), Nil),
                 NodeH(nm, ReplaceProp(BodyAt(t, k), name, Nil), Nil));
  }
}
