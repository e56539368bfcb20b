/** Walking a finished blob: node and property lookup, the end of a node.
    Each walk is proved against the tree that the blob spells. */
module TreeRead {
  import opened Bytes
  import opened Tokens
  import opened Blob
  import opened StringTable
  import opened Reader
  import opened Hedges

  /** The blob spells this tree. */
  predicate Spells(h: Header, b: seq<byte>, t: Hedge) {
    Complete(h, b, Flat(t) + [End])
  }

  /** It spells no other. */
  lemma SpellsOne(h: Header, b: seq<byte>, s: Hedge, t: Hedge)
    requires Spells(h, b, s) && Spells(h, b, t)
    ensures s == t
  {
    hide Denotes, Flat;
    DenotesUnique(StructBlock(h, b), Flat(s) + [End], Flat(t) + [End], StringsBlock(h, b), 0);
    assert (Flat(s) + [End])[..|Flat(s)|] == Flat(s) && (Flat(t) + [End])[..|Flat(t)|] == Flat(t);
    FlatInjective(s, t);
  }

  ghost predicate HasTree(f: Fdt, t: Hedge)
    reads f, f.mem
  {
    f.Mapped() && Spells(f.hdr, f.Buf(), t)
  }

  /** Structure offset of token `k`. */
  function Off(h: Header, b: seq<byte>, k: nat): nat
    requires |b| == h.totalsize && h.offStruct + h.sizeStruct <= h.totalsize
    requires Parse(StructBlock(h, b)).Some? && k <= |Parse(StructBlock(h, b)).value|
  {
    Offset(Parse(StructBlock(h, b)).value, k)
  }

  predicate Parsed(h: Header, b: seq<byte>, n: nat) {
    && |b| == h.totalsize && h.offStruct + h.sizeStruct <= h.totalsize
    && Parse(StructBlock(h, b)).Some? && |Parse(StructBlock(h, b)).value| == n
  }

  /** Everything a walk needs to know at one token. */
  lemma At(h: Header, b: seq<byte>, cs: seq<Call>, k: nat)
    requires Complete(h, b, cs) && k < |cs|
    ensures Parsed(h, b, |cs|) && h.Sane() && h.magic == FDT_MAGIC
    ensures 0 <= Off(h, b, k) < Off(h, b, k + 1) <= h.sizeStruct < TWO31
    ensures Off(h, b, k) % 4 == 0
    ensures NextTag(h, b, Off(h, b, k)) == (cs[k].Tag(), Off(h, b, k + 1))
    ensures cs[k].BeginNode? ==> NameBytes(h, b, Off(h, b, k)) == cs[k].name
    ensures cs[k].Prop? ==> ReadsProp(h, b, Off(h, b, k), cs[k].key, cs[k].value)
  {
    hide Parse, NextTag, ReadsProp, NameBytes;
    ReadBack(h, b, cs, k);
    var ts := Parse(StructBlock(h, b)).value;
    ParseAt(StructBlock(h, b), ts, k);
    OffsetAligned(ts, k);
  }

  lemma OffZero(h: Header, b: seq<byte>, cs: seq<Call>)
    requires Complete(h, b, cs)
    ensures Parsed(h, b, |cs|) && Off(h, b, 0) == 0
  {
    hide Parse;
  }

  lemma OffMono(h: Header, b: seq<byte>, cs: seq<Call>, i: nat, j: nat)
    requires Complete(h, b, cs) && i <= j <= |cs|
    ensures Parsed(h, b, |cs|) && Off(h, b, i) + 4 * (j - i) <= Off(h, b, j)
  {
    hide Parse;
    OffsetMono(Parse(StructBlock(h, b)).value, i, j);
  }

  /** The offset is that of token `k`. */
  predicate Points(h: Header, b: seq<byte>, cs: seq<Call>, k: nat, offset: int) {
    Parsed(h, b, |cs|) && k < |cs| && offset == Off(h, b, k)
  }

  /** An offset argument is negative, misaligned, or that of a token: what the
      offset checks of the library tell apart. */
  predicate Arg(h: Header, b: seq<byte>, cs: seq<Call>, k: nat, offset: int) {
    -TWO31 <= offset < TWO31 && (0 <= offset && offset % 4 == 0 ==> Points(h, b, cs, k, offset))
  }

  lemma PointsAligned(h: Header, b: seq<byte>, cs: seq<Call>, k: nat, offset: int)
    requires Complete(h, b, cs)
    ensures Points(h, b, cs, k, offset) ==> 0 <= offset && offset % 4 == 0
  {
    hide Parse, NextTag, Complete, ReadsProp, NameBytes;
    if Points(h, b, cs, k, offset) {
      At(h, b, cs, k);
    }
  }

  lemma PointsArg(h: Header, b: seq<byte>, cs: seq<Call>, k: nat, offset: int)
    requires Complete(h, b, cs) && Points(h, b, cs, k, offset)
    ensures Arg(h, b, cs, k, offset)
  {
    hide Parse, NextTag, Complete, ReadsProp, NameBytes;
    At(h, b, cs, k);
  }

  /** fdt_check_node_offset_ */
  method CheckNodeOffset(f: Fdt, offset: int, ghost cs: seq<Call>, ghost k: nat) returns (r: int)
    requires f.Mapped() && Complete(f.hdr, f.Buf(), cs) && Arg(f.hdr, f.Buf(), cs, k, offset)
    ensures r >= 0 || r == -ERR_BADOFFSET
    ensures r >= 0 <==> Points(f.hdr, f.Buf(), cs, k, offset) && cs[k].BeginNode?
    ensures r >= 0 ==> Parsed(f.hdr, f.Buf(), |cs|) && r == Off(f.hdr, f.Buf(), k + 1)
  {
    hide Parse, NextTag, Complete, ReadsProp, NameBytes;
    if offset < 0 || offset % 4 != 0 {
      PointsAligned(f.hdr, f.Buf(), cs, k, offset);
      return -ERR_BADOFFSET;
    }
    At(f.hdr, f.Buf(), cs, k);
    var tag, next := FdtNextTag(f, offset);
    if tag != FDT_BEGIN_NODE {
      return -ERR_BADOFFSET;
    }
    return next;
  }

  // ---- properties of a node

  /** First token at or after `i` that is not a no-op. */
  function SkipNops(cs: seq<Call>, i: nat): (j: nat)
    requires i <= |cs|
    ensures i <= j <= |cs|
    decreases |cs| - i
  {
    if i < |cs| && cs[i].Nop? then SkipNops(cs, i + 1) else i
  }

  /** nextprop_: the next property, else why there is none. */
  method NextProp(f: Fdt, from: int, ghost cs: seq<Call>, ghost i: nat) returns (r: int)
    requires f.Mapped() && Complete(f.hdr, f.Buf(), cs) && Points(f.hdr, f.Buf(), cs, i, from)
    requires SkipNops(cs, i) < |cs|
    ensures Parsed(f.hdr, f.Buf(), |cs|)
    ensures r == var j := SkipNops(cs, i);
                 if cs[j].Prop? then Off(f.hdr, f.Buf(), j)
                 else if cs[j].End? then -ERR_BADSTRUCTURE else -ERR_NOTFOUND
  {
    hide Parse, NextTag, Complete, ReadsProp, NameBytes;
    ghost var h, b := f.hdr, f.Buf();
    var offset := from;
    ghost var k := i;
    while true
      invariant i <= k < |cs| && SkipNops(cs, k) == SkipNops(cs, i)
      invariant Points(h, b, cs, k, offset)
      decreases |cs| - k
    {
      At(h, b, cs, k);
      var tag, next := FdtNextTag(f, offset);
      if tag == FDT_END {
        return -ERR_BADSTRUCTURE;
      }
      if tag == FDT_PROP {
        return offset;
      }
      offset := next;
      if tag != FDT_NOP {
        return -ERR_NOTFOUND;
      }
      k := k + 1;
    }
  }

  /** Lookup in the spelling of a body: where it stops and what it finds. */
  function PropScan(cs: seq<Call>, i: nat, name: seq<byte>): (j: nat)
    requires i <= |cs|
    ensures i <= j <= |cs| && (j < |cs| && cs[j].Prop? ==> cs[j].key == name)
    decreases |cs| - i
  {
    if i < |cs| && (cs[i].Nop? || (cs[i].Prop? && cs[i].key != name)) then PropScan(cs, i + 1, name) else i
  }

  lemma {:induction false} PropScanNops(cs: seq<Call>, i: nat, name: seq<byte>)
    requires i <= |cs|
    ensures PropScan(cs, i, name) == PropScan(cs, SkipNops(cs, i), name)
    decreases |cs| - i
  {
    if i < |cs| && cs[i].Nop? {
      PropScanNops(cs, i + 1, name);
    }
  }

  /** The scan over a body stops at the property, or where the properties end. */
  lemma {:induction false} PropScanBody(cs: seq<Call>, i: nat, b: Hedge, name: seq<byte>)
    requires i + |Flat(b)| < |cs| && Lies(cs, i, Flat(b)) && cs[i + |Flat(b)|] == EndNode
    ensures PropScan(cs, i, name) < |cs|
    ensures Lookup(b, name).Some? ==> PropScan(cs, i, name) == i + PropIndex(b, name)
    ensures Lookup(b, name).Some? ==> cs[PropScan(cs, i, name)] == Prop(name, Lookup(b, name).value)
    ensures Lookup(b, name).None? ==> cs[PropScan(cs, i, name)].BeginNode? || cs[PropScan(cs, i, name)].EndNode?
    decreases b
  {
    hide Lies;
    assert Flat(Nil) == [];
    hide Flat;
    match b
    case Nil =>
    case PropH(k, v, r) =>
      LiesProp(cs, i, k, v, r);
      PropScanBody(cs, i + 1, r, name);
    case NopH(r) =>
      LiesNop(cs, i, r);
      PropScanBody(cs, i + 1, r, name);
    case NodeH(n, c, r) =>
      LiesNode(cs, i, n, c, r);
  }

  /** fdt_string_eq_ on the property at an offset, and its length field. */
  method PropMatches(f: Fdt, offset: nat, name: CStr, ghost cs: seq<Call>, ghost i: nat) returns (eq: bool, len: int)
    requires f.Mapped() && Complete(f.hdr, f.Buf(), cs) && Points(f.hdr, f.Buf(), cs, i, offset) && cs[i].Prop?
    ensures eq <==> cs[i].key == name
    ensures len == |cs[i].value|
  {
    hide Parse, NextTag, Complete, NameBytes, GetString, Ld32, Int32;
    var h := f.hdr;
    At(h, f.Buf(), cs, i);
    var key := Load32(f, h.offStruct + offset + 8);
    len := Load32(f, h.offStruct + offset + 4);
    eq := GetString(h, f.Buf(), Int32(key)) == Str(name);
  }

  /** fdt_get_property_namelen_: the offset of the first property of that name
      before the node's first subnode, and its length; else an error. */
  method GetProperty(f: Fdt, nodeoffset: int, name: CStr, ghost cs: seq<Call>, ghost k: nat) returns (r: int, len: int)
    requires f.Mapped() && Complete(f.hdr, f.Buf(), cs) && Arg(f.hdr, f.Buf(), cs, k, nodeoffset)
    requires Points(f.hdr, f.Buf(), cs, k, nodeoffset) && cs[k].BeginNode? ==> PropScan(cs, k + 1, name) < |cs|
    ensures !(Points(f.hdr, f.Buf(), cs, k, nodeoffset) && cs[k].BeginNode?) ==> r == -ERR_BADOFFSET
    ensures Points(f.hdr, f.Buf(), cs, k, nodeoffset) && cs[k].BeginNode? ==>
              var j := PropScan(cs, k + 1, name);
              if cs[j].Prop? then r == Off(f.hdr, f.Buf(), j) && len == |cs[j].value|
              else r == if cs[j].End? then -ERR_BADSTRUCTURE else -ERR_NOTFOUND
  {
    hide Parse, NextTag, Complete, NameBytes, ReadsProp, PropScan, SkipNops;
    ghost var h, b := f.hdr, f.Buf();
    len := 0;
    r := CheckNodeOffset(f, nodeoffset, cs, k);
    if r < 0 {
      return;
    }
    ghost var i := k + 1;
    PropScanNops(cs, i, name);
    ScanInside(cs, i, name);
    r := NextProp(f, r, cs, i);
    i := SkipNops(cs, i);
    while r >= 0
      invariant k < i < |cs| && PropScan(cs, i, name) == PropScan(cs, k + 1, name) < |cs|
      invariant !cs[i].Nop?
      invariant r == if cs[i].Prop? then Off(h, b, i) else if cs[i].End? then -ERR_BADSTRUCTURE else -ERR_NOTFOUND
      decreases |cs| - i
    {
      var eq;
      eq, len := PropMatches(f, r, name, cs, i);
      if eq {
        PropScanHere(cs, i, name);
        return;
      }
      At(h, b, cs, i);
      var tag, next := FdtNextTag(f, r);
      PropScanHere(cs, i, name);
      PropScanNops(cs, i + 1, name);
      ScanInside(cs, i + 1, name);
      r := NextProp(f, next, cs, i + 1);
      i := SkipNops(cs, i + 1);
    }
    PropScanHere(cs, i, name);
  }

  /** One step of the scan, at a token that is not a no-op. */
  lemma PropScanHere(cs: seq<Call>, i: nat, name: seq<byte>)
    requires i < |cs| && !cs[i].Nop?
    ensures PropScan(cs, i, name) == if cs[i].Prop? && cs[i].key != name then PropScan(cs, i + 1, name) else i
  {
  }

  lemma {:induction false} ScanInside(cs: seq<Call>, i: nat, name: seq<byte>)
    requires i <= |cs| && PropScan(cs, i, name) < |cs|
    ensures i <= SkipNops(cs, i) <= PropScan(cs, i, name) && !cs[SkipNops(cs, i)].Nop? && i < |cs|
    decreases |cs| - i
  {
    if i < |cs| && cs[i].Nop? {
      ScanInside(cs, i + 1, name);
    }
  }

  // ---- nodes

  /** Where fdt_next_node stops: at a node, past the end of the enclosing node,
      or at the END tag. */
  datatype Stop = AtNode(i: nat, depth: int) | Closed(i: nat, depth: int) | Ran

  function Forward(cs: seq<Call>, i: nat, d: int): (s: Stop)
    requires i <= |cs|
    ensures !s.Ran? ==> i < |cs| && i <= s.i <= |cs|
    ensures s.AtNode? ==> s.i < |cs| && cs[s.i].BeginNode?
    decreases |cs| - i
  {
    if i == |cs| then Ran else
    match cs[i]
    case BeginNode(_) => AtNode(i, d + 1)
    case EndNode => if d - 1 < 0 then Closed(i + 1, d - 1) else Forward(cs, i + 1, d - 1)
    case End => Ran
    case _ => Forward(cs, i + 1, d)
  }

  predicate Ended(cs: seq<Call>) {
    |cs| > 0 && cs[|cs| - 1].End?
  }

  /** fdt_next_node with a depth counter, from a node. */
  method NextNode(f: Fdt, from: int, d: int, ghost cs: seq<Call>, ghost k: nat) returns (r: int, depth: int)
    requires f.Mapped() && Complete(f.hdr, f.Buf(), cs) && Ended(cs)
    requires Points(f.hdr, f.Buf(), cs, k, from) && cs[k].BeginNode?
    ensures Parsed(f.hdr, f.Buf(), |cs|)
    ensures match Forward(cs, k + 1, d)
            case AtNode(i, e) => r == Off(f.hdr, f.Buf(), i) && depth == e
            case Closed(i, e) => r == Off(f.hdr, f.Buf(), i) && depth == e
            case Ran => r == -ERR_NOTFOUND
  {
    hide Parse, NextTag, Complete, ReadsProp, NameBytes;
    ghost var h, b := f.hdr, f.Buf();
    var nextoffset := CheckNodeOffset(f, from, cs, k) by { At(h, b, cs, k); }
    ghost var i := k + 1;
    var offset, tag;
    depth := d;
    while true
      invariant k < i < |cs| && Points(h, b, cs, i, nextoffset)
      invariant Forward(cs, k + 1, d) == Forward(cs, i, depth)
      decreases |cs| - i
    {
      At(h, b, cs, i);
      offset := nextoffset;
      tag, nextoffset := FdtNextTag(f, offset);
      if tag == FDT_BEGIN_NODE {
        depth := depth + 1;
        return offset, depth;
      } else if tag == FDT_END_NODE {
        depth := depth - 1;
        if depth < 0 {
          return nextoffset, depth;
        }
      } else if tag == FDT_END {
        return -ERR_NOTFOUND, depth;
      }
      i := i + 1;
    }
  }

  /** Past the END_NODE that closes the enclosing node, counted from depth `d`. */
  function CloseIndex(cs: seq<Call>, i: nat, d: nat): (r: Option<nat>)
    requires i <= |cs|
    ensures r.Some? ==> i < r.value <= |cs|
    decreases |cs| - i
  {
    if i == |cs| then None else
    match cs[i]
    case BeginNode(_) => CloseIndex(cs, i + 1, d + 1)
    case EndNode => if d == 0 then Some(i + 1) else CloseIndex(cs, i + 1, d - 1)
    case End => None
    case _ => CloseIndex(cs, i + 1, d)
  }

  lemma {:induction false} CloseForward(cs: seq<Call>, i: nat, d: nat)
    requires i <= |cs|
    ensures match Forward(cs, i, d)
            case AtNode(j, e) => e > 0 && CloseIndex(cs, i, d) == CloseIndex(cs, j + 1, e)
            case Closed(j, e) => e < 0 && CloseIndex(cs, i, d) == Some(j)
            case Ran => CloseIndex(cs, i, d) == None
    decreases |cs| - i
  {
    if i < |cs| {
      match cs[i]
      case EndNode => if d > 0 { CloseForward(cs, i + 1, d - 1); }
      case Prop(_, _) => CloseForward(cs, i + 1, d);
      case Nop => CloseForward(cs, i + 1, d);
      case _ =>
    }
  }

  /** A whole hedge is balanced: the depth after it is the depth before it. */
  lemma {:induction false} CloseOverHedge(cs: seq<Call>, i: nat, t: Hedge, d: nat)
    requires i + |Flat(t)| <= |cs| && Lies(cs, i, Flat(t))
    ensures CloseIndex(cs, i, d) == CloseIndex(cs, i + |Flat(t)|, d)
    decreases t
  {
    hide Lies;
    assert Flat(Nil) == [];
    hide Flat;
    match t
    case Nil =>
    case PropH(k, v, r) =>
      LiesProp(cs, i, k, v, r);
      CloseOverHedge(cs, i + 1, r, d);
    case NopH(r) =>
      LiesNop(cs, i, r);
      CloseOverHedge(cs, i + 1, r, d);
    case NodeH(n, b, r) =>
      LiesNode(cs, i, n, b, r);
      CloseOverHedge(cs, i + 1, b, d + 1);
      CloseOverHedge(cs, i + 2 + |Flat(b)|, r, d);
  }

  /** In a tree, the end found is the end of the node. */
  lemma CloseAtNode(t: Hedge, k: nat)
    requires IsNode(t, k)
    ensures NodeEnd(t, k) <= |Flat(t)|
    ensures CloseIndex(Flat(t) + [End], k + 1, 0) == Some(NodeEnd(t, k))
  {
    NodeTokens(t, k);
    CloseOverHedge(Flat(t) + [End], k + 1, BodyAt(t, k), 0);
  }

  /** The loop of fdt_node_end_offset_. */
  method CloseFrom(f: Fdt, from: int, ghost cs: seq<Call>, ghost k: nat, ghost e: nat) returns (r: int)
    requires f.Mapped() && Complete(f.hdr, f.Buf(), cs) && Ended(cs)
    requires Points(f.hdr, f.Buf(), cs, k, from) && cs[k].BeginNode?
    requires CloseIndex(cs, k + 1, 0) == Some(e)
    ensures Parsed(f.hdr, f.Buf(), |cs|) && r == Off(f.hdr, f.Buf(), e)
  {
    hide Parse, Complete, CloseIndex, Forward;
    ghost var h, b := f.hdr, f.Buf();
    var depth := 0;
    ghost var i := k;
    r := from;
    while r >= 0 && depth >= 0
      invariant depth < 0 ==> Parsed(h, b, |cs|) && r == Off(h, b, e)
      invariant depth >= 0 ==>
                k <= i && Points(h, b, cs, i, r) && cs[i].BeginNode? && CloseIndex(cs, i + 1, depth) == Some(e)
      decreases depth >= 0, |cs| - i
    {
      CloseForward(cs, i + 1, depth);
      ghost var stop := Forward(cs, i + 1, depth);
      r, depth := NextNode(f, r, depth, cs, i);
      i := stop.i;
    }
  }

  /** fdt_node_end_offset_: the offset just past the node's END_NODE. */
  method NodeEndOffset(f: Fdt, nodeoffset: int, ghost t: Hedge, ghost k: nat) returns (r: int)
    requires HasTree(f, t) && Arg(f.hdr, f.Buf(), Flat(t) + [End], k, nodeoffset)
    ensures !(Points(f.hdr, f.Buf(), Flat(t) + [End], k, nodeoffset) && IsNode(t, k)) ==> r < 0
    ensures Points(f.hdr, f.Buf(), Flat(t) + [End], k, nodeoffset) && IsNode(t, k) ==>
              NodeEnd(t, k) <= |Flat(t)| && r == Off(f.hdr, f.Buf(), NodeEnd(t, k))
  {
    hide Parse, Complete, CloseIndex, NodeEnd, Off;
    ghost var cs := Flat(t) + [End];
    if nodeoffset < 0 {
      PointsAligned(f.hdr, f.Buf(), cs, k, nodeoffset);
      return nodeoffset;
    }
    r := CheckNodeOffset(f, nodeoffset, cs, k);
    if r < 0 {
      return;
    }
    CloseAtNode(t, k);
    r := CloseFrom(f, nodeoffset, cs, k, NodeEnd(t, k));
  }

  /** The argument names the node opened by token `k` of the tree. */
  ghost predicate NodeArg(f: Fdt, t: Hedge, k: nat, offset: int)
    reads f, f.mem
    requires f.Mapped()
  {
    Points(f.hdr, f.Buf(), Flat(t) + [End], k, offset) && IsNode(t, k)
  }

  /** Where a property of the node stands among the tokens. */
  function PropToken(t: Hedge, k: nat, name: seq<byte>): (j: nat)
    requires IsNode(t, k) && Lookup(BodyAt(t, k), name).Some?
  {
    k + 1 + PropIndex(BodyAt(t, k), name)
  }

  lemma PropTokenIs(t: Hedge, k: nat, name: seq<byte>)
    requires IsNode(t, k)
    ensures var cs := Flat(t) + [End];
            var j := PropScan(cs, k + 1, name);
            match Lookup(BodyAt(t, k), name)
            case Some(v) => j == PropToken(t, k, name) < |Flat(t)| && cs[j] == Prop(name, v)
            case None => j < |cs| && (cs[j].BeginNode? || cs[j].EndNode?)
  {
    NodeTokens(t, k);
    PropScanBody(Flat(t) + [End], k + 1, BodyAt(t, k), name);
    if Lookup(BodyAt(t, k), name).Some? {
      FlatProp(BodyAt(t, k), name, Nil);
    }
  }

  /** fdt_get_property on a tree. */
  method FindProp(f: Fdt, nodeoffset: int, name: CStr, ghost t: Hedge, ghost k: nat) returns (off: int, len: int)
    requires HasTree(f, t) && Arg(f.hdr, f.Buf(), Flat(t) + [End], k, nodeoffset)
    ensures !NodeArg(f, t, k, nodeoffset) ==> off == -ERR_BADOFFSET
    ensures NodeArg(f, t, k, nodeoffset) && Lookup(BodyAt(t, k), name).None? ==> off == -ERR_NOTFOUND
    ensures NodeArg(f, t, k, nodeoffset) && Lookup(BodyAt(t, k), name).Some? ==>
              && Points(f.hdr, f.Buf(), Flat(t) + [End], PropToken(t, k, name), off) && off >= 0
              && (Flat(t) + [End])[PropToken(t, k, name)] == Prop(name, Lookup(BodyAt(t, k), name).value)
              && len == |Lookup(BodyAt(t, k), name).value|
  {
    hide Parse, Complete, PropScan, PropToken;
    ghost var cs := Flat(t) + [End];
    if Points(f.hdr, f.Buf(), cs, k, nodeoffset) && cs[k].BeginNode? {
      assert IsNode(t, k);
      PropTokenIs(t, k, name);
    }
    off, len := GetProperty(f, nodeoffset, name, cs, k);
  }
}
