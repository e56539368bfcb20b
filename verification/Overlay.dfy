/** Overlay phandle renumbering: fdt_find_max_phandle, and the two walks of
    fdt_overlay_apply that move the phandles of an overlay, and the references
    to them, above those of the base tree. */
module Overlay {
  import opened Bytes
  import opened Tokens
  import opened Blob
  import opened Reader
  import opened Hedges
  import opened TreeRead
  import opened Nodes
  import opened Inplace

  const PHANDLE: CStr := [0x70, 0x68, 0x61, 0x6e, 0x64, 0x6c, 0x65]
  const LINUX_PHANDLE: CStr := [0x6c, 0x69, 0x6e, 0x75, 0x78, 0x2c, 0x70, 0x68, 0x61, 0x6e, 0x64, 0x6c, 0x65]
  const MAX_WORD: u32 := 0xffff_ffff

  // ---- phandles of nodes

  function WordOf(cs: seq<Call>, j: Option<nat>): (w: Option<u32>)
    requires j.Some? ==> j.value < |cs| && cs[j.value].Prop?
  {
    if j.Some? && |cs[j.value].value| == 4 then Some(Ld32(cs[j.value].value, 0)) else None
  }

  /** fdt_get_phandle: from one property or the other, else 0. */
  function PhandleOf(cs: seq<Call>, k: nat): (p: u32)
    requires k < |cs|
  {
    match WordOf(cs, Found(cs, k, PHANDLE))
    case Some(w) => w
    case None =>
      match WordOf(cs, Found(cs, k, LINUX_PHANDLE))
      case Some(w) => w
      case None => 0
  }

  /** The word in a property value of four bytes. */
  method ReadWord(f: Fdt, off: nat, ghost cs: seq<Call>, ghost j: nat) returns (w: u32)
    requires f.Mapped() && Complete(f.hdr, f.Buf(), cs) && Points(f.hdr, f.Buf(), cs, j, off) && cs[j].Prop?
    requires |cs[j].value| == 4
    ensures w == Ld32(cs[j].value, 0)
  {
    w := ReadCell(f, off, 0, cs, j);
  }

  /** The cell at a byte offset into a property value. */
  method ReadCell(f: Fdt, off: nat, o: nat, ghost cs: seq<Call>, ghost j: nat) returns (w: u32)
    requires f.Mapped() && Complete(f.hdr, f.Buf(), cs) && Points(f.hdr, f.Buf(), cs, j, off) && cs[j].Prop?
    requires o + 4 <= |cs[j].value|
    ensures w == Ld32(cs[j].value, o)
  {
    hide Parse, Complete, NextTag, NameBytes, GetString, Ld32, Off;
    At(f.hdr, f.Buf(), cs, j);
    var at := f.hdr.offStruct + off + 12;
    w := Load32(f, at + o);
    ghost var b, v := f.Buf(), cs[j].value;
    SliceSlice(b, at, at + |v|, o, o + 4);
    Ld32Same(v, o, b, at + o);
  }

  method GetPhandle(f: Fdt, nodeoffset: nat, ghost cs: seq<Call>, ghost k: nat) returns (p: u32)
    requires f.Mapped() && Complete(f.hdr, f.Buf(), cs) && Nested(cs)
    requires Points(f.hdr, f.Buf(), cs, k, nodeoffset) && cs[k].BeginNode?
    ensures p == PhandleOf(cs, k)
  {
    hide Parse, Complete, Found, Nested, Ld32, Points;
    PointsArg(f.hdr, f.Buf(), cs, k, nodeoffset);
    var off, len := LookUp(f, nodeoffset, PHANDLE, cs, k);
    ghost var name := PHANDLE;
    if off < 0 || len != 4 {
      PointsArg(f.hdr, f.Buf(), cs, k, nodeoffset);
      off, len := LookUp(f, nodeoffset, LINUX_PHANDLE, cs, k);
      name := LINUX_PHANDLE;
      if off < 0 || len != 4 {
        return 0;
      }
    }
    p := ReadWord(f, off, cs, Found(cs, k, name).value);
  }

  /** The first node at or after token `i`: fdt_next_node without a depth. */
  function NodeFrom(cs: seq<Call>, i: nat): (r: Option<nat>)
    requires i <= |cs|
    ensures r.Some? ==> i <= r.value < |cs| && cs[r.value].BeginNode?
    decreases |cs| - i
  {
    if i == |cs| || cs[i].End? then None
    else if cs[i].BeginNode? then Some(i)
    else NodeFrom(cs, i + 1)
  }

  lemma {:induction false} NodeFromFirst(cs: seq<Call>, i: nat, x: nat)
    requires Nested(cs) && i <= x < |cs| && cs[x].BeginNode?
    ensures NodeFrom(cs, i).Some? && NodeFrom(cs, i).value <= x
    decreases x - i
  {
    if i < x && !cs[i].BeginNode? {
      NodeFromFirst(cs, i + 1, x);
    }
  }

  /** The walk of fdt_next_node from token `i` on. */
  method WalkToNode(f: Fdt, from: nat, ghost cs: seq<Call>, ghost i0: nat) returns (r: int)
    requires f.Mapped() && Complete(f.hdr, f.Buf(), cs) && Ended(cs) && Points(f.hdr, f.Buf(), cs, i0, from)
    ensures match NodeFrom(cs, i0)
            case Some(j) => Points(f.hdr, f.Buf(), cs, j, r) && r >= 0
            case None => r == -ERR_NOTFOUND
  {
    hide Parse, NextTag, Complete, ReadsProp, NameBytes;
    ghost var h, b := f.hdr, f.Buf();
    var nextoffset := from;
    ghost var i := i0;
    while true
      invariant i0 <= i < |cs| && Points(h, b, cs, i, nextoffset) && NodeFrom(cs, i0) == NodeFrom(cs, i)
      decreases |cs| - i
    {
      At(h, b, cs, i);
      r := nextoffset;
      var tag;
      tag, nextoffset := FdtNextTag(f, r);
      if tag == FDT_END {
        return -ERR_NOTFOUND;
      }
      if tag == FDT_BEGIN_NODE {
        return;
      }
      i := i + 1;
    }
  }

  /** The largest phandle of a tree. */
  predicate MaxPhandle(cs: seq<Call>, max: u32) {
    && (forall x :: 0 <= x < |cs| && cs[x].BeginNode? ==> PhandleOf(cs, x) <= max)
    && (max == 0 || exists x :: 0 <= x < |cs| && cs[x].BeginNode? && PhandleOf(cs, x) == max)
  }

  /** fdt_find_max_phandle */
  method FindMaxPhandle(f: Fdt, ghost cs: seq<Call>) returns (max: u32)
    requires f.Mapped() && Complete(f.hdr, f.Buf(), cs) && Nested(cs)
    ensures MaxPhandle(cs, max)
  {
    hide Parse, Complete, NodeFrom, PhandleOf, CloseIndex;
    ghost var h, b := f.hdr, f.Buf();
    OffZero(h, b, cs);
    max := 0;
    ghost var i: nat := 0;
    var offset := WalkToNode(f, 0, cs, 0);
    while offset >= 0
      invariant i <= |cs|
      invariant match NodeFrom(cs, i) case Some(j) => Points(h, b, cs, j, offset) case None => offset == -ERR_NOTFOUND
      invariant forall x :: 0 <= x < i && cs[x].BeginNode? ==> PhandleOf(cs, x) <= max
      invariant max == 0 || exists x :: 0 <= x < i && cs[x].BeginNode? && PhandleOf(cs, x) == max
      decreases |cs| - i
    {
      ghost var j := NodeFrom(cs, i).value;
      var value := GetPhandle(f, offset, cs, j);
      NoneBetween(cs, i, j);
      if value > max {
        max := value;
      }
      assert j < |cs| - 1;
      PointsArg(h, b, cs, j, offset);
      var next := CheckNodeOffset(f, offset, cs, j);
      offset := WalkToNode(f, next, cs, j + 1);
      i := j + 1;
    }
    NoneBetween(cs, i, |cs|);
  }

  lemma NoneBetween(cs: seq<Call>, i: nat, j: nat)
    requires Nested(cs) && i <= j <= |cs| && (NodeFrom(cs, i).None? || NodeFrom(cs, i).value == j)
    ensures forall x :: i <= x < j ==> !cs[x].BeginNode?
  {
    hide NodeFrom, CloseIndex;
    forall x | i <= x < j
      ensures !cs[x].BeginNode?
    {
      if cs[x].BeginNode? {
        NodeFromFirst(cs, i, x);
      }
    }
  }

  // ---- phandles of the overlay

  /** What a walk leaves behind: the tokens, and the error it stopped with. */
  datatype Outcome = Outcome(cs: seq<Call>, err: int)

  /** overlay_phandle_add_offset */
  function AddOffset(cs: seq<Call>, k: nat, name: seq<byte>, delta: u32): (r: Outcome)
    requires k < |cs|
    ensures SameShape(cs, r.cs) && |r.cs| == |cs|
  {
    match Found(cs, k, name)
    case None => Outcome(cs, -ERR_NOTFOUND)
    case Some(j) =>
      if |cs[j].value| != 4 then Outcome(cs, -ERR_BADPHANDLE)
      else if Ld32(cs[j].value, 0) + delta >= MAX_WORD then Outcome(cs, -ERR_NOPHANDLES)
      else Outcome(WithValue(cs, j, 0, Be32(Ld32(cs[j].value, 0) + delta)), 0)
  }

  /** Its errors: NOTFOUND (1), BADPHANDLE (6) unless the value is one cell, and NOPHANDLES
      (17) if the sum would not stay below 2^32-1. */
  lemma AddErrors(cs: seq<Call>, k: nat, name: seq<byte>, delta: u32)
    requires k < |cs|
    ensures AddOffset(cs, k, name, delta).err ==
            match Found(cs, k, name)
            case None => -1
            case Some(j) =>
              var v := cs[j].value;
              if |v| != 4 then -6 else if Ld32(v, 0) as int + delta as int >= 0xffff_ffff then -17 else 0
  {
    hide Found, Ld32, Be32, SameShape;
  }

  predicate Failed(err: int) {
    err != 0 && err != -ERR_NOTFOUND
  }

  /** Both phandle properties of one node. */
  function AdjustNode(cs: seq<Call>, k: nat, delta: u32): (r: Outcome)
    requires k < |cs|
    ensures |r.cs| == |cs|
  {
    var a := AddOffset(cs, k, PHANDLE, delta);
    if Failed(a.err) then a else
    var b := AddOffset(a.cs, k, LINUX_PHANDLE, delta);
    if Failed(b.err) then b else Outcome(b.cs, 0)
  }

  /** All nodes that start at tokens `a` to `b`, in order, up to the first failure. */
  function AdjustRange(cs: seq<Call>, a: nat, b: nat, delta: u32): (r: Outcome)
    requires a <= b <= |cs|
    ensures |r.cs| == |cs|
    decreases b - a
  {
    if a == b then Outcome(cs, 0)
    else if !cs[a].BeginNode? then AdjustRange(cs, a + 1, b, delta)
    else
      var o := AdjustNode(cs, a, delta);
      if o.err != 0 then o else AdjustRange(o.cs, a + 1, b, delta)
  }

  lemma NodeShape(cs: seq<Call>, k: nat, delta: u32)
    requires k < |cs|
    ensures SameShape(cs, AdjustNode(cs, k, delta).cs)
  {
    hide SameShape, AddOffset;
    var a := AddOffset(cs, k, PHANDLE, delta);
    ShapeTrans(cs, a.cs, AddOffset(a.cs, k, LINUX_PHANDLE, delta).cs);
  }

  lemma {:induction false} RangeShape(cs: seq<Call>, a: nat, b: nat, delta: u32)
    requires a <= b <= |cs|
    ensures SameShape(cs, AdjustRange(cs, a, b, delta).cs)
    decreases b - a
  {
    hide SameShape, AdjustNode;
    ShapeSelf(cs);
    if a < b {
      if cs[a].BeginNode? {
        NodeShape(cs, a, delta);
        var o := AdjustNode(cs, a, delta);
        if o.err == 0 {
          RangeShape(o.cs, a + 1, b, delta);
          ShapeTrans(cs, o.cs, AdjustRange(o.cs, a + 1, b, delta).cs);
        }
      } else {
        RangeShape(cs, a + 1, b, delta);
      }
    }
  }

  /** A range can be walked in two parts. */
  lemma {:induction false} RangeSplit(cs: seq<Call>, a: nat, m: nat, b: nat, delta: u32)
    requires a <= m <= b <= |cs|
    ensures AdjustRange(cs, a, b, delta) == var o := AdjustRange(cs, a, m, delta);
                                            if o.err != 0 then o else AdjustRange(o.cs, m, b, delta)
    decreases m - a
  {
    hide AdjustNode;
    if a < m {
      if cs[a].BeginNode? {
        var o := AdjustNode(cs, a, delta);
        if o.err == 0 {
          RangeSplit(o.cs, a + 1, m, b, delta);
        }
      } else {
        RangeSplit(cs, a + 1, m, b, delta);
      }
    }
  }

  lemma {:induction false} RangeIdle(cs: seq<Call>, a: nat, b: nat, delta: u32)
    requires a <= b <= |cs| && forall x :: a <= x < b ==> !cs[x].BeginNode?
    ensures AdjustRange(cs, a, b, delta) == Outcome(cs, 0)
    decreases b - a
  {
    if a < b {
      RangeIdle(cs, a + 1, b, delta);
    }
  }

  method PhandleAddOffset(f: Fdt, node: nat, name: CStr, delta: u32, ghost cs: seq<Call>, ghost k: nat)
    returns (err: int, ghost ds: seq<Call>)
    requires f.Mapped() && Complete(f.hdr, f.Buf(), cs) && Nested(cs)
    requires Points(f.hdr, f.Buf(), cs, k, node) && cs[k].BeginNode?
    modifies f.mem
    ensures Confined(f) && Complete(f.hdr, f.Buf(), ds)
    ensures Outcome(ds, err) == AddOffset(cs, k, name, delta)
  {
    hide Parse, Complete, Found, Nested, SameShape, Points, Ld32, Be32;
    ds := cs;
    PointsArg(f.hdr, f.Buf(), cs, k, node);
    var off, len := LookUp(f, node, name, cs, k);
    if off < 0 {
      return off, cs;
    }
    if len != 4 {
      return -ERR_BADPHANDLE, cs;
    }
    var adj := ReadWord(f, off, cs, Found(cs, k, name).value);
    if U32(adj + delta) < adj {
      return -ERR_NOPHANDLES, cs;
    }
    adj := U32(adj + delta);
    if adj == MAX_WORD {
      return -ERR_NOPHANDLES, cs;
    }
    PointsArg(f.hdr, f.Buf(), cs, k, node);
    err, ds := SetPartial(f, node, name, 0, Be32(adj), cs, k);
  }

  /** The first part of overlay_adjust_node_phandles. */
  method AdjustOne(f: Fdt, node: nat, delta: u32, ghost cs: seq<Call>, ghost k: nat)
    returns (err: int, ghost ds: seq<Call>)
    requires f.Mapped() && Complete(f.hdr, f.Buf(), cs) && Nested(cs)
    requires Points(f.hdr, f.Buf(), cs, k, node) && cs[k].BeginNode?
    modifies f.mem
    ensures Confined(f) && Complete(f.hdr, f.Buf(), ds) && SameShape(cs, ds)
    ensures Outcome(ds, err) == AdjustNode(cs, k, delta)
  {
    hide Parse, Complete, AddOffset, SameShape;
    ghost var b := f.Buf();
    err, ds := PhandleAddOffset(f, node, PHANDLE, delta, cs, k);
    if Failed(err) {
      return;
    }
    ShapeNested(cs, ds);
    PointsKept(f.hdr, b, cs, f.Buf(), ds, k, node);
    ShapeAt(cs, ds, k);
    err, ds := PhandleAddOffset(f, node, LINUX_PHANDLE, delta, ds, k);
    NodeShape(cs, k, delta);
    if Failed(err) {
      return;
    }
    err := 0;
  }

  lemma ShapeAt(cs: seq<Call>, ds: seq<Call>, k: nat)
    requires SameShape(cs, ds) && k < |cs|
    ensures Like(cs[k], ds[k])
  {
  }

  /** overlay_adjust_node_phandles: exactly the nodes of the subtree, each once,
      in the order of their tokens. */
  method AdjustNodePhandles(f: Fdt, node: nat, delta: u32, ghost cs: seq<Call>, ghost k: nat, ghost e: nat)
    returns (err: int, ghost ds: seq<Call>)
    requires f.Mapped() && Complete(f.hdr, f.Buf(), cs) && Nested(cs)
    requires Points(f.hdr, f.Buf(), cs, k, node) && cs[k].BeginNode? && CloseIndex(cs, k + 1, 0) == Some(e)
    modifies f.mem
    ensures Confined(f) && Complete(f.hdr, f.Buf(), ds) && SameShape(cs, ds)
    ensures Outcome(ds, err) == AdjustRange(cs, k, e, delta)
    decreases e - k
  {
    hide Parse, Complete, SameShape, AdjustNode, AdjustRange, NextChild, CloseIndex, Nested, Points;
    ghost var h, b0 := f.hdr, f.Buf();
    err, ds := AdjustOne(f, node, delta, cs, k);
    RangeOne(cs, k, e, delta);
    if err != 0 {
      return;
    }
    Renewed(h, b0, cs, f.Buf(), ds, k, node, k + 1);
    var child := FirstSubnode(f, node, ds, k);
    ghost var i := k + 1;
    while child >= 0
      invariant Confined(f) && f.Mapped() && f.hdr == h && Complete(h, f.Buf(), ds) && SameShape(cs, ds) && Nested(ds)
      invariant k < i <= e <= |ds| == |cs| && CloseIndex(ds, i, 0) == Some(e)
      invariant AdjustRange(cs, k, i, delta) == Outcome(ds, 0)
      invariant match NextChild(ds, i)
                case Some(j) => Points(h, f.Buf(), ds, j, child) && child >= 0
                case None => child == -ERR_NOTFOUND
      decreases e - i
    {
      ghost var j := NextChild(ds, i).value;
      ghost var x := ChildRange(cs, ds, k, i, j, e, delta);
      ghost var b1, ds1 := f.Buf(), ds;
      err, ds := AdjustNodePhandles(f, child, delta, ds, j, x);
      RangeSplit(cs, k, j, x, delta);
      RangeSplit(cs, k, x, e, delta);
      ShapeTrans(cs, ds1, ds);
      if err != 0 {
        return;
      }
      Renewed(h, b1, ds1, f.Buf(), ds, j, child, x);
      ShapeClose(ds1, ds, j + 1, 0);
      child := NextSubnode(f, child, ds, j, x);
      i := x;
    }
    RangeSplit(cs, k, i, e, delta);
    TailIdle(ds, i, e);
    RangeIdle(ds, i, e, delta);
    err := 0;
  }

  /** The first step of a range. */
  lemma RangeOne(cs: seq<Call>, k: nat, e: nat, delta: u32)
    requires k < e <= |cs| && cs[k].BeginNode?
    ensures AdjustNode(cs, k, delta).err != 0 ==> AdjustRange(cs, k, e, delta) == AdjustNode(cs, k, delta)
    ensures AdjustNode(cs, k, delta).err == 0 ==> AdjustRange(cs, k, k + 1, delta) == AdjustNode(cs, k, delta)
  {
    hide AdjustNode;
  }

  /** After values changed, a node is where it was and ends where it did. */
  lemma Renewed(h: Header, b: seq<byte>, cs: seq<Call>, b': seq<byte>, ds: seq<Call>, k: nat, node: int, i: nat)
    requires Complete(h, b, cs) && Complete(h, b', ds) && SameShape(cs, ds) && Nested(cs) && Points(h, b, cs, k, node)
    requires i <= |cs|
    ensures Nested(ds) && Points(h, b', ds, k, node) && Like(cs[k], ds[k]) && |cs| == |ds|
    ensures CloseIndex(ds, i, 0) == CloseIndex(cs, i, 0)
    ensures Ended(ds)
  {
    hide Complete, CloseIndex, Points;
    ShapeNested(cs, ds);
    PointsKept(h, b, cs, b', ds, k, node);
    ShapeClose(cs, ds, i, 0);
    assert k < |cs| by { PointsIndex(h, b, cs, k, node); }
  }

  lemma PointsIndex(h: Header, b: seq<byte>, cs: seq<Call>, k: nat, node: int)
    requires Points(h, b, cs, k, node)
    ensures k < |cs|
  {
  }

  /** Where the next subnode ends, and that nothing is skipped before it. */
  lemma ChildRange(cs: seq<Call>, ds: seq<Call>, k: nat, i: nat, j: nat, e: nat, delta: u32) returns (x: nat)
    requires |cs| == |ds| && Nested(ds) && k < i <= e <= |ds| && CloseIndex(ds, i, 0) == Some(e)
    requires NextChild(ds, i) == Some(j)
    requires AdjustRange(cs, k, i, delta) == Outcome(ds, 0)
    ensures i <= j < x < e && ds[j].BeginNode?
    ensures CloseIndex(ds, j + 1, 0) == Some(x) && CloseIndex(ds, x, 0) == Some(e)
    ensures AdjustRange(cs, k, j, delta) == Outcome(ds, 0)
  {
    hide AdjustRange, CloseIndex, NextChild;
    NextInside(ds, i, e);
    x := CloseIndex(ds, j + 1, 0).value;
    CloseOuter(ds, j + 1, 0, x);
    ChildFirst(ds, i, j);
    RangeSplit(cs, k, i, j, delta);
    RangeIdle(ds, i, j, delta);
  }

  lemma {:induction false} ChildFirst(cs: seq<Call>, i: nat, j: nat)
    requires i <= |cs| && NextChild(cs, i) == Some(j)
    ensures forall x :: i <= x < j ==> !cs[x].BeginNode?
    decreases |cs| - i
  {
    if i < j {
      ChildFirst(cs, i + 1, j);
    }
  }

  lemma {:induction false} TailIdle(cs: seq<Call>, i: nat, e: nat)
    requires i <= |cs| && NextChild(cs, i) == None && CloseIndex(cs, i, 0) == Some(e)
    ensures forall x :: i <= x < e ==> !cs[x].BeginNode?
    decreases |cs| - i
  {
    if cs[i].Prop? || cs[i].Nop? {
      TailIdle(cs, i + 1, e);
    }
  }

  // ---- what renumbering does to phandles

  /** Token `i` is a phandle property of node `k`. */
  predicate Owns(cs: seq<Call>, k: nat, i: nat) {
    k < |cs| && (Found(cs, k, PHANDLE) == Some(i) || Found(cs, k, LINUX_PHANDLE) == Some(i))
  }

  /** Properties of a node lie between it and the next node. */
  lemma OwnsBefore(cs: seq<Call>, x: nat, y: nat, i: nat)
    requires x < y < |cs| && cs[y].BeginNode? && Owns(cs, x, i)
    ensures x < i < y
  {
    hide PropScan;
    ScanBefore(cs, x + 1, PHANDLE, y);
    ScanBefore(cs, x + 1, LINUX_PHANDLE, y);
  }

  lemma ShapeOwns(cs: seq<Call>, ds: seq<Call>, k: nat, i: nat)
    requires SameShape(cs, ds)
    ensures Owns(cs, k, i) == Owns(ds, k, i)
  {
    hide Found;
    if k < |cs| {
      ShapeFound(cs, ds, k, PHANDLE);
      ShapeFound(cs, ds, k, LINUX_PHANDLE);
    }
  }

  lemma NodeFrame(cs: seq<Call>, k: nat, delta: u32, i: nat)
    requires k < |cs| && i < |cs| && !Owns(cs, k, i)
    ensures AdjustNode(cs, k, delta).cs[i] == cs[i]
  {
    hide Found, SameShape, Be32, Ld32;
    ShapeFound(cs, AddOffset(cs, k, PHANDLE, delta).cs, k, LINUX_PHANDLE);
  }

  /** The value of a phandle property and the value it becomes. */
  predicate Moved(cs: seq<Call>, ds: seq<Call>, j: nat, delta: u32) {
    && j < |cs| && j < |ds| && cs[j].Prop? && ds[j].Prop?
    && |cs[j].value| == 4 && |ds[j].value| == 4 && Ld32(ds[j].value, 0) == Ld32(cs[j].value, 0) + delta < MAX_WORD
  }

  lemma AddMoves(cs: seq<Call>, k: nat, name: seq<byte>, delta: u32)
    requires k < |cs|
    ensures var o := AddOffset(cs, k, name, delta);
            !Failed(o.err) && Found(cs, k, name).Some? ==>
                o.err == 0 && Moved(cs, o.cs, Found(cs, k, name).value, delta)
    ensures forall i :: 0 <= i < |cs| && Found(cs, k, name) != Some(i) ==> AddOffset(cs, k, name, delta).cs[i] == cs[i]
  {
    hide Found, SameShape, Be32, Ld32;
    var o := AddOffset(cs, k, name, delta);
    if !Failed(o.err) && Found(cs, k, name).Some? {
      var j := Found(cs, k, name).value;
      var w := Be32(Ld32(cs[j].value, 0) + delta);
      assert Patch(cs[j].value, 0, w) == w;
    }
  }

  lemma NodeMoves(cs: seq<Call>, k: nat, delta: u32, j: nat)
    requires k < |cs| && AdjustNode(cs, k, delta).err == 0 && Owns(cs, k, j)
    ensures Moved(cs, AdjustNode(cs, k, delta).cs, j, delta)
  {
    hide Found, SameShape, Be32, Ld32, AddOffset;
    var a := AddOffset(cs, k, PHANDLE, delta);
    AddMoves(cs, k, PHANDLE, delta);
    AddMoves(a.cs, k, LINUX_PHANDLE, delta);
    ShapeFound(cs, a.cs, k, LINUX_PHANDLE);
    assert PHANDLE != LINUX_PHANDLE by { assert |PHANDLE| != |LINUX_PHANDLE|; }
    if Found(cs, k, PHANDLE) == Some(j) {
      assert Found(a.cs, k, LINUX_PHANDLE) != Some(j);
    } else {
      assert a.cs[j] == cs[j];
    }
  }

  lemma {:induction false} RangeFrame(cs: seq<Call>, a: nat, b: nat, delta: u32, i: nat)
    requires a <= b <= |cs| && i < |cs| && forall x :: a <= x < b && cs[x].BeginNode? ==> !Owns(cs, x, i)
    ensures AdjustRange(cs, a, b, delta).cs[i] == cs[i]
    decreases b - a
  {
    hide Owns, AdjustNode, SameShape;
    if a < b {
      if cs[a].BeginNode? {
        NodeFrame(cs, a, delta, i);
        NodeShape(cs, a, delta);
        var o := AdjustNode(cs, a, delta);
        forall x | a + 1 <= x < b && o.cs[x].BeginNode?
          ensures !Owns(o.cs, x, i)
        {
          ShapeOwns(cs, o.cs, x, i);
          ShapeAt(cs, o.cs, x);
        }
        if o.err == 0 {
          RangeFrame(o.cs, a + 1, b, delta, i);
        }
      } else {
        RangeFrame(cs, a + 1, b, delta, i);
      }
    }
  }

  /** Each phandle property of each node of the range is moved once. */
  lemma {:induction false} RangeMoves(cs: seq<Call>, a: nat, b: nat, delta: u32, x: nat, j: nat)
    requires a <= x < b <= |cs| && cs[x].BeginNode? && Owns(cs, x, j) && j < |cs|
    requires AdjustRange(cs, a, b, delta).err == 0
    ensures Moved(cs, AdjustRange(cs, a, b, delta).cs, j, delta)
    decreases b - a
  {
    hide Owns, AdjustNode, SameShape, Moved;
    if !cs[a].BeginNode? {
      RangeMoves(cs, a + 1, b, delta, x, j);
    } else {
      NodeShape(cs, a, delta);
      var o := AdjustNode(cs, a, delta);
      ShapeOwns(cs, o.cs, x, j);
      ShapeAt(cs, o.cs, x);
      if a == x {
        NodeMoves(cs, a, delta, j);
        MovedLater(o.cs, x, b, delta, j);
      } else {
        NotOwned(cs, a, x, j);
        NodeFrame(cs, a, delta, j);
        RangeMoves(o.cs, a + 1, b, delta, x, j);
      }
      MovedTrans(cs, o.cs, AdjustRange(o.cs, a + 1, b, delta).cs, j, delta);
    }
  }

  lemma MovedTrans(cs: seq<Call>, ds: seq<Call>, es: seq<Call>, j: nat, delta: u32)
    requires j < |cs| == |ds| == |es|
    ensures Moved(cs, ds, j, delta) && ds[j] == es[j] ==> Moved(cs, es, j, delta)
    ensures cs[j] == ds[j] && Moved(ds, es, j, delta) ==> Moved(cs, es, j, delta)
  {
  }

  lemma NotOwned(cs: seq<Call>, x: nat, y: nat, j: nat)
    requires x < |cs| && y < |cs| && cs[x].BeginNode? && cs[y].BeginNode? && x != y && Owns(cs, y, j)
    ensures !Owns(cs, x, j)
  {
    hide Found;
    if x < y && Owns(cs, x, j) {
      OwnsBefore(cs, x, y, j);
    } else if y < x {
      OwnsBefore(cs, y, x, j);
    }
  }

  /** Nodes further on do not touch it again. */
  lemma MovedLater(cs: seq<Call>, x: nat, b: nat, delta: u32, j: nat)
    requires x < b <= |cs| && cs[x].BeginNode? && Owns(cs, x, j) && j < |cs|
    ensures AdjustRange(cs, x + 1, b, delta).cs[j] == cs[j]
  {
    hide Owns;
    forall y | x + 1 <= y < b && cs[y].BeginNode?
      ensures !Owns(cs, y, j)
    {
      NotOwned(cs, y, x, j);
    }
    RangeFrame(cs, x + 1, b, delta, j);
  }

  predicate HasPhandle(cs: seq<Call>, x: nat)
    requires x < |cs|
  {
    Found(cs, x, PHANDLE).Some? || Found(cs, x, LINUX_PHANDLE).Some?
  }

  /** A successful walk adds the offset to the phandle of every node that has one. */
  lemma Renumbered(cs: seq<Call>, a: nat, b: nat, delta: u32, x: nat)
    requires a <= x < b <= |cs| && cs[x].BeginNode? && AdjustRange(cs, a, b, delta).err == 0
    ensures var ds := AdjustRange(cs, a, b, delta).cs;
            && HasPhandle(ds, x) == HasPhandle(cs, x)
            && PhandleOf(ds, x) == if HasPhandle(cs, x) then PhandleOf(cs, x) + delta else 0
  {
    hide Found, SameShape, AdjustRange, Ld32;
    var ds := AdjustRange(cs, a, b, delta).cs;
    RangeShape(cs, a, b, delta);
    ShapeFound(cs, ds, x, PHANDLE);
    ShapeFound(cs, ds, x, LINUX_PHANDLE);
    if Found(cs, x, PHANDLE).Some? {
      RangeMoves(cs, a, b, delta, x, Found(cs, x, PHANDLE).value);
    } else if Found(cs, x, LINUX_PHANDLE).Some? {
      RangeMoves(cs, a, b, delta, x, Found(cs, x, LINUX_PHANDLE).value);
    }
  }

  /** Renumbering is conflict free: with the largest phandle of the base tree as
      the offset, a phandle of the overlay comes to exceed every phandle of the
      base exactly when it was not zero; phandles of the overlay that differed
      still differ. */
  lemma ConflictFree(base: seq<Call>, cs: seq<Call>, e: nat, delta: u32, x: nat)
    requires MaxPhandle(base, delta) && |base| > 0 && base[0].BeginNode?
    requires x < e <= |cs| && cs[x].BeginNode? && HasPhandle(cs, x) && AdjustRange(cs, 0, e, delta).err == 0
    ensures var ds := AdjustRange(cs, 0, e, delta).cs;
            && (PhandleOf(cs, x) != 0 <==> forall y :: 0 <= y < |base| && base[y].BeginNode? ==>
                PhandleOf(base, y) < PhandleOf(ds, x))
            && forall y :: 0 <= y < e && cs[y].BeginNode? && HasPhandle(cs, y) ==>
                (PhandleOf(ds, y) == PhandleOf(ds, x) <==> PhandleOf(cs, y) == PhandleOf(cs, x))
  {
    hide PhandleOf, AdjustRange, HasPhandle;
    var ds := AdjustRange(cs, 0, e, delta).cs;
    Renumbered(cs, 0, e, delta, x);
    forall y | 0 <= y < e && cs[y].BeginNode? && HasPhandle(cs, y)
      ensures PhandleOf(ds, y) == PhandleOf(ds, x) <==> PhandleOf(cs, y) == PhandleOf(cs, x)
    {
      Renumbered(cs, 0, e, delta, y);
    }
    if PhandleOf(cs, x) == 0 {
      assert PhandleOf(base, 0) <= delta;
    }
  }

  // ---- a phandle of zero

  /** A root whose phandle is `p`. */
  function RootWith(p: u32): (cs: seq<Call>) {
    [BeginNode([]), Prop(PHANDLE, Be32(p)), EndNode, End]
  }

  lemma RootPhandle(p: u32)
    ensures Found(RootWith(p), 0, PHANDLE) == Some(1) && PhandleOf(RootWith(p), 0) == p && HasPhandle(RootWith(p), 0)
    ensures Found(RootWith(p), 0, LINUX_PHANDLE) == None
  {
    hide Be32, Ld32;
    var cs := RootWith(p);
    assert |PHANDLE| != |LINUX_PHANDLE|;
    assert PropScan(cs, 1, PHANDLE) == 1;
    assert PropScan(cs, 1, LINUX_PHANDLE) == PropScan(cs, 2, LINUX_PHANDLE) == 2;
  }

  /** Renumbered against a base whose largest phandle is 5, an overlay phandle of
      zero becomes 5: the two trees then share it. */
  lemma ZeroCollides()
    ensures MaxPhandle(RootWith(5), 5) && AdjustRange(RootWith(0), 0, 3, 5).err == 0
    ensures PhandleOf(RootWith(0), 0) == 0
    ensures PhandleOf(AdjustRange(RootWith(0), 0, 3, 5).cs, 0) == PhandleOf(RootWith(5), 0) == 5
  {
    hide Be32, Ld32, PropScan, PhandleOf, HasPhandle;
    var cs := RootWith(0);
    RootPhandle(0);
    RootPhandle(5);
    ZeroMoves();
    Renumbered(cs, 0, 3, 5, 0);
  }

  lemma ZeroMoves()
    ensures AdjustRange(RootWith(0), 0, 3, 5).err == 0
  {
    hide Be32, Ld32, PropScan;
    var cs := RootWith(0);
    RootPhandle(0);
    var a := AddOffset(cs, 0, PHANDLE, 5);
    assert a.err == 0;
    ShapeFound(cs, a.cs, 0, LINUX_PHANDLE);
    var o := AdjustNode(cs, 0, 5);
    assert o.err == 0;
    NodeShape(cs, 0, 5);
    ShapeAt(cs, o.cs, 1);
    ShapeAt(cs, o.cs, 2);
    RangeIdle(o.cs, 1, 3, 5);
  }
}
