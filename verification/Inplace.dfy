/** Overwriting property values in place (fdt_setprop_inplace and its partial
    form) and visiting subnodes while that happens: values change, the shape of
    the token sequence, and with it every offset and every lookup, does not. */
module Inplace {
  import opened Bytes
  import opened Tokens
  import opened Blob
  import opened StringTable
  import opened Reader
  import opened Hedges
  import opened TreeRead
  import opened Splice
  import opened ReadWrite
  import opened Nodes

  // ---- shape

  /** Equal but for the bytes of a property value. */
  predicate Like(a: Call, b: Call) {
    match a
    case Prop(k, v) => b.Prop? && b.key == k && |b.value| == |v|
    case _ => a == b
  }

  predicate SameShape(cs: seq<Call>, ds: seq<Call>) {
    |cs| == |ds| && forall i :: 0 <= i < |cs| ==> Like(cs[i], ds[i])
  }

  lemma ShapeSelf(cs: seq<Call>)
    ensures SameShape(cs, cs)
  {
  }

  lemma ShapeTrans(cs: seq<Call>, ds: seq<Call>, es: seq<Call>)
    requires SameShape(cs, ds) && SameShape(ds, es)
    ensures SameShape(cs, es)
  {
    forall i | 0 <= i < |cs|
      ensures Like(cs[i], es[i])
    {
      assert Like(cs[i], ds[i]) && Like(ds[i], es[i]);
    }
  }

  lemma {:induction false} ShapeScan(cs: seq<Call>, ds: seq<Call>, i: nat, name: seq<byte>)
    requires SameShape(cs, ds) && i <= |cs|
    ensures PropScan(cs, i, name) == PropScan(ds, i, name)
    decreases |cs| - i
  {
    if i < |cs| {
      assert Like(cs[i], ds[i]);
      ShapeScan(cs, ds, i + 1, name);
    }
  }

  lemma {:induction false} ShapeClose(cs: seq<Call>, ds: seq<Call>, i: nat, d: nat)
    requires SameShape(cs, ds) && i <= |cs|
    ensures CloseIndex(cs, i, d) == CloseIndex(ds, i, d)
    decreases |cs| - i
  {
    if i < |cs| {
      assert Like(cs[i], ds[i]);
      match cs[i]
      case BeginNode(_) => ShapeClose(cs, ds, i + 1, d + 1);
      case EndNode => if d > 0 { ShapeClose(cs, ds, i + 1, d - 1); }
      case _ => ShapeClose(cs, ds, i + 1, d);
    }
  }

  lemma {:induction false} ShapeSub(cs: seq<Call>, ds: seq<Call>, i: nat, d: nat, s: seq<byte>)
    requires SameShape(cs, ds) && i <= |cs|
    ensures SubIndex(cs, i, d, s) == SubIndex(ds, i, d, s)
    decreases |cs| - i
  {
    hide NameMatches;
    if i < |cs| {
      assert Like(cs[i], ds[i]);
      match cs[i]
      case BeginNode(_) => ShapeSub(cs, ds, i + 1, d + 1, s);
      case EndNode => if d > 0 { ShapeSub(cs, ds, i + 1, d - 1, s); }
      case _ => ShapeSub(cs, ds, i + 1, d, s);
    }
  }

  lemma {:induction false} ShapeOffset(cs: seq<Call>, ds: seq<Call>, k: nat)
    requires SameShape(cs, ds) && k <= |cs|
    ensures Offset(cs, k) == Offset(ds, k)
  {
    if k > 0 {
      assert Like(cs[k - 1], ds[k - 1]);
      ShapeOffset(cs, ds, k - 1);
    }
  }

  /** Offsets do not depend on what the property names are. */
  lemma {:induction false} MeantOffset(ts: seq<RawToken>, cs: seq<Call>, strs: seq<byte>, k: nat)
    requires AllMean(ts, cs, strs, 0) && k <= |ts|
    ensures Offset(ts, k) == Offset(cs, k)
  {
    hide StringAt, Int32;
    if k > 0 {
      assert Means(ts[k - 1], cs[k - 1], strs, 0);
      MeantOffset(ts, cs, strs, k - 1);
    }
  }

  /** Two blobs that say the same up to values have their tokens at the same places. */
  lemma PointsKept(h: Header, b: seq<byte>, cs: seq<Call>, b': seq<byte>, ds: seq<Call>, k: nat, offset: int)
    requires Complete(h, b, cs) && Complete(h, b', ds) && SameShape(cs, ds) && Points(h, b, cs, k, offset)
    ensures Points(h, b', ds, k, offset)
  {
    hide Parse, AllMean;
    MeantOffset(TokensOf(h, b, cs), cs, StringsBlock(h, b), k);
    MeantOffset(TokensOf(h, b', ds), ds, StringsBlock(h, b'), k);
    ShapeOffset(cs, ds, k);
  }

  /** Nodes are closed before the one END tag. */
  predicate Nested(cs: seq<Call>) {
    && Ended(cs) && (forall k :: 0 <= k < |cs| - 1 ==> !cs[k].End?)
    && forall k :: 0 <= k < |cs| && cs[k].BeginNode? ==> CloseIndex(cs, k + 1, 0).Some?
  }

  /** As they are in every tree. */
  lemma TreeNested(t: Hedge)
    ensures Nested(Flat(t) + [End])
  {
    var cs := Flat(t) + [End];
    forall k | 0 <= k < |cs| && cs[k].BeginNode?
      ensures CloseIndex(cs, k + 1, 0).Some?
    {
      CloseAtNode(t, k);
    }
    forall k | 0 <= k < |cs| - 1
      ensures !cs[k].End?
    {
      FlatNoEnd(t, k);
    }
  }

  lemma ShapeNested(cs: seq<Call>, ds: seq<Call>)
    requires SameShape(cs, ds) && Nested(cs)
    ensures Nested(ds)
  {
    hide CloseIndex;
    assert Like(cs[|cs| - 1], ds[|ds| - 1]);
    forall k | 0 <= k < |ds| - 1
      ensures !ds[k].End?
    {
      assert Like(cs[k], ds[k]);
    }
    forall k | 0 <= k < |ds| && ds[k].BeginNode?
      ensures CloseIndex(ds, k + 1, 0).Some?
    {
      assert Like(cs[k], ds[k]);
      ShapeClose(cs, ds, k + 1, 0);
    }
  }

  // ---- lookup of a property on tokens

  function Found(cs: seq<Call>, k: nat, name: seq<byte>): (r: Option<nat>)
    requires k < |cs|
    ensures r.Some? ==> k < r.value < |cs| && cs[r.value].Prop? && cs[r.value].key == name
  {
    var j := PropScan(cs, k + 1, name);
    if j < |cs| && cs[j].Prop? then Some(j) else None
  }

  /** The scan for a property stays inside its node. */
  lemma {:induction false} ScanNested(cs: seq<Call>, i: nat, name: seq<byte>)
    requires i <= |cs| && CloseIndex(cs, i, 0).Some?
    ensures PropScan(cs, i, name) < |cs| && !cs[PropScan(cs, i, name)].End?
    decreases |cs| - i
  {
    if i < |cs| && (cs[i].Nop? || cs[i].Prop?) {
      ScanNested(cs, i + 1, name);
    }
  }

  lemma {:induction false} SkipNested(cs: seq<Call>, i: nat)
    requires i <= |cs| && CloseIndex(cs, i, 0).Some?
    ensures SkipNops(cs, i) < |cs| && !cs[SkipNops(cs, i)].End? && !cs[SkipNops(cs, i)].Nop?
    ensures CloseIndex(cs, SkipNops(cs, i), 0) == CloseIndex(cs, i, 0)
    decreases |cs| - i
  {
    if i < |cs| && cs[i].Nop? {
      SkipNested(cs, i + 1);
    }
  }

  lemma ShapeFound(cs: seq<Call>, ds: seq<Call>, k: nat, name: seq<byte>)
    requires SameShape(cs, ds) && k < |cs|
    ensures Found(cs, k, name) == Found(ds, k, name)
  {
    ShapeScan(cs, ds, k + 1, name);
    var j := PropScan(cs, k + 1, name);
    if j < |cs| {
      assert Like(cs[j], ds[j]);
    }
  }

  /** Properties come before the next node. */
  lemma {:induction false} ScanBefore(cs: seq<Call>, i: nat, name: seq<byte>, x: nat)
    requires i <= x < |cs| && cs[x].BeginNode?
    ensures PropScan(cs, i, name) <= x
    decreases x - i
  {
    if i < x && (cs[i].Nop? || (cs[i].Prop? && cs[i].key != name)) {
      ScanBefore(cs, i + 1, name, x);
    }
  }

  // ---- fdt_setprop_inplace_namelen_partial

  function WithValue(cs: seq<Call>, j: nat, o: nat, w: seq<byte>): (ds: seq<Call>)
    requires j < |cs| && cs[j].Prop? && o + |w| <= |cs[j].value|
    ensures SameShape(cs, ds)
  {
    cs[j := Prop(cs[j].key, Patch(cs[j].value, o, w))]
  }

  lemma PatchShift(b: seq<byte>, at: nat, end: nat, o: nat, w: seq<byte>)
    requires at <= end <= |b| && o + |w| <= end - at
    ensures Patch(b, at + o, w)[at..end] == Patch(b[at..end], o, w)
  {
    var l, r := Patch(b, at + o, w)[at..end], Patch(b[at..end], o, w);
    forall i | 0 <= i < |l|
      ensures l[i] == r[i]
    {
      PatchIndex(b, at + o, w, at + i);
      PatchIndex(b[at..end], o, w, i);
    }
  }

  /** Bytes stored inside a value, on the bytes of the one token. */
  lemma ValueBytes(b: seq<byte>, at: nat, key: u32, v: seq<byte>, o: nat, w: seq<byte>)
    requires at + 12 + Align4(|v|) <= |b| && o + |w| <= |v| < TWO31
    requires Ld32(b, at) == FDT_PROP && Ld32(b, at + 4) == |v| && Ld32(b, at + 8) == key
    requires b[at + 12..at + 12 + |v|] == v
    ensures SameAround(b, Patch(b, at + 12 + o, w), at, 12 + Align4(|v|))
    ensures Parse(Patch(b, at + 12 + o, w)[at..at + 12 + Align4(|v|)]) == Some([Prop(key, Patch(v, o, w))])
  {
    hide Parse, Patch, Ld32, SameAround;
    PatchAround(b, at + 12 + o, w, at, 12 + Align4(|v|));
    LdPatchOther(b, at + 12 + o, w, at);
    LdPatchOther(b, at + 12 + o, w, at + 4);
    LdPatchOther(b, at + 12 + o, w, at + 8);
    PatchShift(b, at + 12, at + 12 + |v|, o, w);
    PropLayout(Patch(b, at + 12 + o, w), at, key, Patch(v, o, w));
  }

  /** Bytes stored inside a value change that value and nothing else. */
  lemma ValueStored(h: Header, b: seq<byte>, cs: seq<Call>, j: nat, q: nat, o: nat, w: seq<byte>)
    requires Complete(h, b, cs) && Points(h, b, cs, j, q) && cs[j].Prop? && o + |w| <= |cs[j].value|
    ensures h.offStruct + q + 12 + o + |w| <= |b|
    ensures Complete(h, Patch(b, h.offStruct + q + 12 + o, w), WithValue(cs, j, o, w))
  {
    hide Parse, Denotes, Patch, StringAt, Int32, Ld32, Align4, Offset, SameAround, GetString, NextTag, NameBytes;
    var key := PropCells(h, b, cs, j);
    var v := cs[j].value;
    At(h, b, cs, j);
    ValueBytes(b, h.offStruct + q, key, v, o, w);
    ValueEdited(h, b, cs, j, q, Patch(b, h.offStruct + q + 12 + o, w), key, Patch(v, o, w));
    Replaced(cs, j, Prop(cs[j].key, Patch(v, o, w)));
  }

  lemma Replaced(cs: seq<Call>, j: nat, c: Call)
    requires j < |cs|
    ensures cs[..j] + [c] + cs[j + 1..] == cs[j := c]
  {
  }

  lemma ValueEdited(h: Header, b: seq<byte>, cs: seq<Call>, j: nat, q: nat, b': seq<byte>, key: u32, v: seq<byte>)
    requires Complete(h, b, cs) && Points(h, b, cs, j, q) && cs[j].Prop? && |v| == |cs[j].value|
    requires q + 12 + Align4(|v|) == Off(h, b, j + 1) <= h.sizeStruct
    requires StringAt(StringsBlock(h, b), Int32(key)) == Some(cs[j].key)
    requires SameAround(b, b', h.offStruct + q, 12 + Align4(|v|))
    requires Parse(b'[h.offStruct + q..h.offStruct + q + (12 + Align4(|v|))]) == Some([Prop(key, v)])
    ensures Complete(h, b', cs[..j] + [Prop(cs[j].key, v)] + cs[j + 1..])
  {
    hide Parse, Denotes, Opened, StringAt, Int32, Align4, Offset, SameAround;
    var n := 12 + Align4(|v|);
    OpenedSame(h, b, q, n);
    OpenedFilled(h, b, h, b, b', q, n, n);
    OneMeans(Prop(key, v), Prop(cs[j].key, v), StringsBlock(h, b));
    Edited(h, b, cs, TokensOf(h, b, cs), j, j + 1, h, b', [Prop(key, v)], [Prop(cs[j].key, v)], q, n, n);
  }

  /** fdt_getprop_namelen_w: structure offset of the property, and its length. */
  method LookUp(f: Fdt, nodeoffset: int, name: CStr, ghost cs: seq<Call>, ghost k: nat) returns (off: int, len: int)
    requires f.Mapped() && Complete(f.hdr, f.Buf(), cs) && Nested(cs) && Arg(f.hdr, f.Buf(), cs, k, nodeoffset)
    ensures !OpensNode(f.hdr, f.Buf(), cs, k, nodeoffset) ==> off == -ERR_BADOFFSET
    ensures OpensNode(f.hdr, f.Buf(), cs, k, nodeoffset) ==>
              match Found(cs, k, name)
              case Some(j) =>
                Points(f.hdr, f.Buf(), cs, j, off) && off >= 0 && len == |cs[j].value| && cs[j].key == name
              case None => off == -ERR_NOTFOUND
  {
    hide Parse, Complete, PropScan, CloseIndex;
    if OpensNode(f.hdr, f.Buf(), cs, k, nodeoffset) {
      ScanNested(cs, k + 1, name);
    }
    off, len := GetProperty(f, nodeoffset, name, cs, k);
    if OpensNode(f.hdr, f.Buf(), cs, k, nodeoffset) {
      PointsAligned(f.hdr, f.Buf(), cs, PropScan(cs, k + 1, name), off);
    }
  }

  /** The offset is that of token `k`, which opens a node. */
  ghost predicate OpensNode(h: Header, b: seq<byte>, cs: seq<Call>, k: nat, offset: int) {
    Points(h, b, cs, k, offset) && cs[k].BeginNode?
  }

  /** The size test of the partial setter, on 32-bit unsigned integers. */
  predicate TooShort(proplen: u32, len: u32, idx: u32) {
    proplen < U32(len + idx)
  }

  /** It means that the bytes fit exactly when the sum of the two does not wrap. */
  lemma TooShortExact(proplen: u32, len: u32, idx: u32)
    requires 0 < len <= proplen
    ensures (!TooShort(proplen, len, idx) <==> idx + len <= proplen) <==>
              (len + idx < TWO32 || U32(len + idx) > proplen)
  {
  }

  /** fdt_setprop_inplace_namelen_partial */
  method SetPartial(f: Fdt, nodeoffset: int, name: CStr, idx: u32, val: seq<byte>, ghost cs: seq<Call>, ghost k: nat)
    returns (err: int, ghost ds: seq<Call>)
    requires f.Mapped() && Complete(f.hdr, f.Buf(), cs) && Nested(cs) && Arg(f.hdr, f.Buf(), cs, k, nodeoffset)
    requires |val| + idx < TWO32
    modifies f.mem
    ensures Confined(f) && Complete(f.hdr, f.Buf(), ds) && SameShape(cs, ds)
    ensures !old(OpensNode(f.hdr, f.Buf(), cs, k, nodeoffset)) ==> err == -ERR_BADOFFSET && ds == cs
    ensures old(OpensNode(f.hdr, f.Buf(), cs, k, nodeoffset)) ==>
              match Found(cs, k, name)
              case None => err == -ERR_NOTFOUND && ds == cs
              case Some(j) =>
                if idx + |val| > |cs[j].value| then err == -ERR_NOSPACE && ds == cs
                else err == 0 && ds == WithValue(cs, j, idx, val)
  {
    hide Parse, Complete, Found, Nested, Patch, U32, SameShape;
    var off, proplen := LookUp(f, nodeoffset, name, cs, k);
    ds := cs;
    ShapeSelf(cs);
    if off < 0 {
      return off, ds;
    }
    ghost var j := Found(cs, k, name).value;
    ValueSize(f.hdr, f.Buf(), cs, j);
    NoWrap(|val| + idx);
    if TooShort(proplen, |val|, idx) {
      return -ERR_NOSPACE, ds;
    }
    ValueStored(f.hdr, f.Buf(), cs, j, off, idx, val);
    Store(f, f.hdr.offStruct + off + 12 + idx, val);
    ds := WithValue(cs, j, idx, val);
    err := 0;
  }

  lemma ValueSize(h: Header, b: seq<byte>, cs: seq<Call>, j: nat)
    requires Complete(h, b, cs) && j < |cs| && cs[j].Prop?
    ensures |cs[j].value| < TWO31
  {
    hide Parse, Complete, NextTag, NameBytes, GetString, Ld32;
    At(h, b, cs, j);
  }

  lemma NoWrap(x: nat)
    requires x < TWO32
    ensures U32(x) == x
  {
  }

  // ---- subnodes in turn

  /** The next subnode at or after token `i`, which stands directly inside the node. */
  function NextChild(cs: seq<Call>, i: nat): (r: Option<nat>)
    requires i <= |cs|
    ensures r.Some? ==> i <= r.value < |cs| && cs[r.value].BeginNode?
    decreases |cs| - i
  {
    if i == |cs| then None else
    match cs[i]
    case BeginNode(_) => Some(i)
    case EndNode => None
    case End => None
    case _ => NextChild(cs, i + 1)
  }

  lemma {:induction false} ShapeNext(cs: seq<Call>, ds: seq<Call>, i: nat)
    requires SameShape(cs, ds) && i <= |cs|
    ensures NextChild(cs, i) == NextChild(ds, i)
    decreases |cs| - i
  {
    if i < |cs| {
      assert Like(cs[i], ds[i]);
      ShapeNext(cs, ds, i + 1);
    }
  }

  lemma {:induction false} ForwardNext(cs: seq<Call>, i: nat)
    requires i <= |cs|
    ensures match Forward(cs, i, 0)
            case AtNode(j, e) => e == 1 && NextChild(cs, i) == Some(j)
            case Closed(_, e) => e < 0 && NextChild(cs, i) == None
            case Ran => NextChild(cs, i) == None
    decreases |cs| - i
  {
    if i < |cs| && (cs[i].Prop? || cs[i].Nop?) {
      ForwardNext(cs, i + 1);
    }
  }

  /** Going forward out of a subnode that ends at `x`. */
  lemma {:induction false} ForwardOut(cs: seq<Call>, i: nat, d: nat, x: nat)
    requires i <= |cs| && d >= 1 && CloseIndex(cs, i, d - 1) == Some(x)
    ensures match Forward(cs, i, d)
            case AtNode(j, e) =>
              && e >= 1 && (e > 1 ==> i <= j < x && CloseIndex(cs, j + 1, e - 1) == Some(x))
              && (e == 1 ==> NextChild(cs, x) == Some(j))
            case Closed(_, e) => e < 1 && NextChild(cs, x) == None
            case Ran => NextChild(cs, x) == None
    decreases |cs| - i
  {
    match cs[i]
    case BeginNode(_) =>
    case EndNode =>
      if d == 1 {
        ForwardNext(cs, i + 1);
      } else {
        ForwardOut(cs, i + 1, d - 1, x);
      }
    case Prop(_, _) => ForwardOut(cs, i + 1, d, x);
    case Nop => ForwardOut(cs, i + 1, d, x);
  }

  /** fdt_first_subnode */
  method FirstSubnode(f: Fdt, offset: nat, ghost cs: seq<Call>, ghost k: nat) returns (r: int)
    requires f.Mapped() && Complete(f.hdr, f.Buf(), cs) && Ended(cs) && Points(f.hdr, f.Buf(), cs, k, offset)
    requires cs[k].BeginNode?
    ensures match NextChild(cs, k + 1)
            case Some(j) => Points(f.hdr, f.Buf(), cs, j, r) && r >= 0
            case None => r == -ERR_NOTFOUND
  {
    hide Parse, Complete, NextChild, Forward;
    ForwardNext(cs, k + 1);
    var depth;
    r, depth := NextNode(f, offset, 0, cs, k);
    if r < 0 || depth != 1 {
      return -ERR_NOTFOUND;
    }
  }

  /** fdt_next_subnode, from a subnode whose tokens end at `x`. */
  method NextSubnode(f: Fdt, offset: nat, ghost cs: seq<Call>, ghost k: nat, ghost x: nat) returns (r: int)
    requires f.Mapped() && Complete(f.hdr, f.Buf(), cs) && Ended(cs) && Points(f.hdr, f.Buf(), cs, k, offset)
    requires cs[k].BeginNode?
    requires CloseIndex(cs, k + 1, 0) == Some(x)
    ensures match NextChild(cs, x)
            case Some(j) => Points(f.hdr, f.Buf(), cs, j, r) && r >= 0
            case None => r == -ERR_NOTFOUND
  {
    hide Parse, Complete, NextChild, Forward, CloseIndex;
    ghost var h, b := f.hdr, f.Buf();
    r := offset;
    var depth := 1;
    ghost var i := k;
    while true
      invariant k <= i && Points(h, b, cs, i, r) && cs[i].BeginNode? && r >= 0
      invariant depth >= 1 && CloseIndex(cs, i + 1, depth - 1) == Some(x)
      decreases |cs| - i
    {
      ForwardOut(cs, i + 1, depth, x);
      ghost var stop := Forward(cs, i + 1, depth);
      r, depth := NextNode(f, r, depth, cs, i);
      if r < 0 || depth < 1 {
        return -ERR_NOTFOUND;
      }
      if depth <= 1 {
        return;
      }
      i := stop.i;
    }
  }

  /** The end of a node is found beyond the end of a subnode. */
  lemma {:induction false} CloseOuter(cs: seq<Call>, i: nat, d: nat, x: nat)
    requires i <= |cs| && CloseIndex(cs, i, d) == Some(x)
    ensures CloseIndex(cs, i, d + 1) == CloseIndex(cs, x, 0)
    decreases |cs| - i
  {
    match cs[i]
    case BeginNode(_) => CloseOuter(cs, i + 1, d + 1, x);
    case EndNode => if d > 0 { CloseOuter(cs, i + 1, d - 1, x); }
    case Prop(_, _) => CloseOuter(cs, i + 1, d, x);
    case Nop => CloseOuter(cs, i + 1, d, x);
  }

  /** From inside a node to its next subnode: no end in between, so the node
      ends after that subnode does. */
  lemma {:induction false} NextInside(cs: seq<Call>, i: nat, e: nat)
    requires i <= |cs| && CloseIndex(cs, i, 0) == Some(e)
    ensures NextChild(cs, i).Some? ==>
              var j := NextChild(cs, i).value;
              j < e && CloseIndex(cs, j + 1, 1) == Some(e)
    decreases |cs| - i
  {
    if cs[i].Prop? || cs[i].Nop? {
      NextInside(cs, i + 1, e);
    }
  }
}
