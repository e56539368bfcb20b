/** Local references of an overlay: the walk over __local_fixups__ that adds the
    phandle offset to every cell listed there, and what it does to references. */
module References {
  import opened Bytes
  import opened Tokens
  import opened Blob
  import opened StringTable
  import opened Reader
  import opened Hedges
  import opened TreeRead
  import opened ReadWrite
  import opened Probe
  import opened Nodes
  import opened Paths
  import opened Inplace
  import opened Overlay

  /** The outcome when a listed offset is so large that adding the cell size
      wraps around: the code then writes outside the value. */
  const UNDEFINED := -1000

  function BumpCell(cs: seq<Call>, j: nat, o: nat, delta: u32): (ds: seq<Call>)
    requires j < |cs| && cs[j].Prop? && o + 4 <= |cs[j].value|
    ensures SameShape(cs, ds)
  {
    WithValue(cs, j, o, Be32(U32(Ld32(cs[j].value, o) + delta)))
  }

  /** The cells listed by fixup property `p`, from the `i`-th on, in property `j`. */
  function FixCells(cs: seq<Call>, j: nat, p: nat, i: nat, delta: u32): (r: Outcome)
    requires j < |cs| && p < |cs| && cs[j].Prop? && cs[p].Prop? && |cs[p].value| % 4 == 0 && 4 * i <= |cs[p].value|
    ensures |r.cs| == |cs|
    decreases |cs[p].value| - 4 * i
  {
    if 4 * i == |cs[p].value| then Outcome(cs, 0) else
    var o := Ld32(cs[p].value, 4 * i);
    if o + 4 >= TWO32 then Outcome(cs, UNDEFINED)
    else if |cs[j].value| < o + 4 then Outcome(cs, -ERR_BADOVERLAY)
    else
      var ds := BumpCell(cs, j, o, delta);
      assert Like(cs[p], ds[p]) && Like(cs[j], ds[j]);
      FixCells(ds, j, p, i + 1, delta)
  }

  /** The properties of a fixup node, from token `i` on, against node `tree`. */
  function FixProps(cs: seq<Call>, tree: nat, i: nat, delta: u32): (r: Outcome)
    requires tree < |cs| && i <= |cs|
    ensures |r.cs| == |cs|
    decreases |cs| - i
  {
    if i == |cs| then Outcome(cs, 0) else
    match cs[i]
    case Nop => FixProps(cs, tree, i + 1, delta)
    case Prop(name, v) =>
      if |v| % 4 != 0 then Outcome(cs, -ERR_BADOVERLAY) else
      (match Found(cs, tree, name)
       case None => Outcome(cs, -ERR_BADOVERLAY)
       case Some(j) =>
         var o := FixCells(cs, j, i, 0, delta);
         if o.err != 0 then o else FixProps(o.cs, tree, i + 1, delta))
    case _ => Outcome(cs, 0)
  }

  /** overlay_update_local_node_references, on tokens. */
  function FixNode(cs: seq<Call>, tree: nat, fix: nat, delta: u32): (r: Outcome)
    requires tree < |cs| && fix < |cs|
    ensures |r.cs| == |cs|
    decreases |cs| - fix, 0
  {
    var o := FixProps(cs, tree, fix + 1, delta);
    if o.err != 0 then o else FixChildren(o.cs, tree, fix + 1, delta)
  }

  /** The subnodes of a fixup node, from token `i` on. */
  function FixChildren(cs: seq<Call>, tree: nat, i: nat, delta: u32): (r: Outcome)
    requires tree < |cs| && i <= |cs|
    ensures |r.cs| == |cs|
    decreases |cs| - i, 1
  {
    match NextChild(cs, i)
    case None => Outcome(cs, 0)
    case Some(c) =>
      match SubIndex(cs, tree + 1, 0, cs[c].name)
      case None => Outcome(cs, -ERR_BADOVERLAY)
      case Some(tc) =>
        var o := FixNode(cs, tc, c, delta);
        match CloseIndex(cs, c + 1, 0)
        case None => o
        case Some(x) => if o.err != 0 then o else FixChildren(o.cs, tree, x, delta)
  }

  // ---- shapes

  lemma {:induction false} CellsShape(cs: seq<Call>, j: nat, p: nat, i: nat, delta: u32)
    requires j < |cs| && p < |cs| && cs[j].Prop? && cs[p].Prop? && |cs[p].value| % 4 == 0 && 4 * i <= |cs[p].value|
    ensures SameShape(cs, FixCells(cs, j, p, i, delta).cs)
    decreases |cs[p].value| - 4 * i
  {
    ShapeSelf(cs);
    if 4 * i < |cs[p].value| {
      var o := Ld32(cs[p].value, 4 * i);
      if o + 4 < TWO32 && |cs[j].value| >= o + 4 {
        var ds := BumpCell(cs, j, o, delta);
        hide SameShape, BumpCell, Ld32, Be32;
        ShapeAt(cs, ds, p);
        ShapeAt(cs, ds, j);
        CellsShape(ds, j, p, i + 1, delta);
        ShapeTrans(cs, ds, FixCells(ds, j, p, i + 1, delta).cs);
      }
    }
  }

  lemma {:induction false} PropsShape(cs: seq<Call>, tree: nat, i: nat, delta: u32)
    requires tree < |cs| && i <= |cs|
    ensures SameShape(cs, FixProps(cs, tree, i, delta).cs)
    decreases |cs| - i
  {
    hide SameShape, FixCells, Found;
    ShapeSelf(cs);
    if i < |cs| {
      if cs[i].Nop? {
        PropsShape(cs, tree, i + 1, delta);
      } else if cs[i].Prop? && |cs[i].value| % 4 == 0 && Found(cs, tree, cs[i].key).Some? {
        var j := Found(cs, tree, cs[i].key).value;
        CellsShape(cs, j, i, 0, delta);
        var o := FixCells(cs, j, i, 0, delta);
        if o.err == 0 {
          PropsShape(o.cs, tree, i + 1, delta);
          ShapeTrans(cs, o.cs, FixProps(o.cs, tree, i + 1, delta).cs);
        }
      }
    }
  }

  lemma {:induction false} NodeFixShape(cs: seq<Call>, tree: nat, fix: nat, delta: u32)
    requires tree < |cs| && fix < |cs|
    ensures SameShape(cs, FixNode(cs, tree, fix, delta).cs)
    decreases |cs| - fix, 0
  {
    hide SameShape, FixProps;
    PropsShape(cs, tree, fix + 1, delta);
    var o := FixProps(cs, tree, fix + 1, delta);
    if o.err == 0 {
      ChildrenShape(o.cs, tree, fix + 1, delta);
      ShapeTrans(cs, o.cs, FixChildren(o.cs, tree, fix + 1, delta).cs);
    }
  }

  lemma {:induction false} ChildrenShape(cs: seq<Call>, tree: nat, i: nat, delta: u32)
    requires tree < |cs| && i <= |cs|
    ensures SameShape(cs, FixChildren(cs, tree, i, delta).cs)
    decreases |cs| - i, 1
  {
    hide SameShape, NextChild, SubIndex, CloseIndex;
    ShapeSelf(cs);
    if NextChild(cs, i).Some? {
      var c := NextChild(cs, i).value;
      if SubIndex(cs, tree + 1, 0, cs[c].name).Some? {
        var tc := SubIndex(cs, tree + 1, 0, cs[c].name).value;
        NodeFixShape(cs, tc, c, delta);
        var o := FixNode(cs, tc, c, delta);
        if o.err == 0 && CloseIndex(cs, c + 1, 0).Some? {
          var x := CloseIndex(cs, c + 1, 0).value;
          ChildrenShape(o.cs, tree, x, delta);
          ShapeTrans(cs, o.cs, FixChildren(o.cs, tree, x, delta).cs);
        }
      }
    }
  }

  // ---- the walk over the blob

  /** The inner loop of overlay_update_local_node_references.  The cell is read
      where the code reads it, but only when it lies inside the value: otherwise
      what is read is not used. */
  method UpdateCells(f: Fdt, treeoff: nat, name: CStr, fixoff: nat, fixlen: nat, treeval: nat, treelen: nat, delta: u32,
                     ghost cs: seq<Call>, ghost tree: nat, ghost p: nat) returns (err: int, ghost ds: seq<Call>)
    requires f.Mapped() && Complete(f.hdr, f.Buf(), cs) && Nested(cs)
    requires Points(f.hdr, f.Buf(), cs, tree, treeoff) && cs[tree].BeginNode?
    requires Points(f.hdr, f.Buf(), cs, p, fixoff) && cs[p].Prop? && fixlen == |cs[p].value| && fixlen % 4 == 0
    requires Found(cs, tree, name).Some? && Points(f.hdr, f.Buf(), cs, Found(cs, tree, name).value, treeval)
    requires treelen == |cs[Found(cs, tree, name).value].value|
    requires FixCells(cs, Found(cs, tree, name).value, p, 0, delta).err != UNDEFINED
    modifies f.mem
    ensures Confined(f) && Complete(f.hdr, f.Buf(), ds) && SameShape(cs, ds)
    ensures Outcome(ds, err) == FixCells(cs, Found(cs, tree, name).value, p, 0, delta)
  {
    hide Parse, Complete, SameShape, Found, Nested, Points, Ld32, Be32, U32;
    ghost var h, b0, j := f.hdr, f.Buf(), Found(cs, tree, name).value;
    ds := cs;
    ShapeSelf(cs);
    PointsIndex(h, b0, cs, p, fixoff);
    var i := 0;
    while i < fixlen / 4
      invariant Confined(f) && f.Mapped() && f.hdr == h && Complete(h, f.Buf(), ds) && SameShape(cs, ds)
      invariant 0 <= i <= fixlen / 4 && |ds| == |cs| && Like(cs[p], ds[p]) && Like(cs[j], ds[j])
      invariant FixCells(cs, j, p, 0, delta) == FixCells(ds, j, p, i, delta)
      decreases fixlen / 4 - i
    {
      Still(h, b0, cs, f.Buf(), ds, tree, treeoff);
      Still(h, b0, cs, f.Buf(), ds, p, fixoff);
      Still(h, b0, cs, f.Buf(), ds, j, treeval);
      ShapeFound(cs, ds, tree, name);
      var poffset := ReadCell(f, fixoff, 4 * i, ds, p);
      var adj: u32 := 0;
      if poffset + 4 <= treelen {
        adj := ReadCell(f, treeval, poffset, ds, j);
      }
      ghost var ds1 := ds;
      PointsArg(f.hdr, f.Buf(), ds, tree, treeoff);
      err, ds := SetPartial(f, treeoff, name, poffset, Be32(U32(adj + delta)), ds, tree);
      if err == -ERR_NOSPACE {
        return -ERR_BADOVERLAY, ds;
      }
      if err != 0 {
        assert false;
      }
      ShapeTrans(cs, ds1, ds);
      ShapeAt(cs, ds, p);
      ShapeAt(cs, ds, j);
      i := i + 1;
    }
    err := 0;
  }

  /** After values changed, a token is where it was. */
  lemma Still(h: Header, b: seq<byte>, cs: seq<Call>, b': seq<byte>, ds: seq<Call>, k: nat, offset: int)
    requires Complete(h, b, cs) && Complete(h, b', ds) && SameShape(cs, ds) && Nested(cs) && Points(h, b, cs, k, offset)
    ensures Nested(ds) && Ended(ds) && Points(h, b', ds, k, offset) && k < |cs| == |ds| && Like(cs[k], ds[k])
  {
    hide Complete, CloseIndex;
    ShapeNested(cs, ds);
    PointsKept(h, b, cs, b', ds, k, offset);
  }

  lemma {:induction false} PropsSkip(cs: seq<Call>, tree: nat, i: nat, delta: u32)
    requires tree < |cs| && i <= |cs|
    ensures FixProps(cs, tree, i, delta) == FixProps(cs, tree, SkipNops(cs, i), delta)
    decreases |cs| - i
  {
    if i < |cs| && cs[i].Nop? {
      PropsSkip(cs, tree, i + 1, delta);
    }
  }

  /** fdt_get_string of the name of a property. */
  method PropName(f: Fdt, offset: nat, ghost cs: seq<Call>, ghost i: nat) returns (name: CStr, len: nat)
    requires f.Mapped() && Complete(f.hdr, f.Buf(), cs) && Points(f.hdr, f.Buf(), cs, i, offset) && cs[i].Prop?
    ensures name == cs[i].key && len == |cs[i].value|
  {
    hide Parse, NextTag, Complete, NameBytes, GetString, Ld32, Int32;
    var h := f.hdr;
    At(h, f.Buf(), cs, i);
    var key := Load32(f, h.offStruct + offset + 8);
    len := Load32(f, h.offStruct + offset + 4);
    var str := GetString(h, f.Buf(), Int32(key));
    KeyCStr(h, f.Buf(), cs, i);
    name := str.s;
  }

  lemma KeyCStr(h: Header, b: seq<byte>, cs: seq<Call>, i: nat)
    requires Complete(h, b, cs) && i < |cs| && cs[i].Prop?
    ensures 0 !in cs[i].key
  {
    hide Parse, StringAt, Int32;
    assert Means(Parse(StructBlock(h, b)).value[i], cs[i], StringsBlock(h, b), 0);
  }

  /** One fixup property. */
  method UpdateProp(f: Fdt, treeoff: nat, fixoff: nat, delta: u32, ghost cs: seq<Call>, ghost tree: nat, ghost i: nat)
    returns (err: int, ghost ds: seq<Call>)
    requires f.Mapped() && Complete(f.hdr, f.Buf(), cs) && Nested(cs)
    requires Points(f.hdr, f.Buf(), cs, tree, treeoff) && cs[tree].BeginNode?
    requires Points(f.hdr, f.Buf(), cs, i, fixoff) && cs[i].Prop?
    requires FixProps(cs, tree, i, delta).err != UNDEFINED
    modifies f.mem
    ensures Confined(f) && Complete(f.hdr, f.Buf(), ds) && SameShape(cs, ds) && |ds| == |cs|
    ensures err != 0 ==> Outcome(ds, err) == FixProps(cs, tree, i, delta)
    ensures err == 0 ==> FixProps(cs, tree, i, delta) == FixProps(ds, tree, i + 1, delta)
  {
    hide Parse, Complete, SameShape, Found, Nested, FixCells;
    ds := cs;
    ShapeSelf(cs);
    var name, fixlen := PropName(f, fixoff, cs, i);
    if fixlen % 4 != 0 {
      return -ERR_BADOVERLAY, ds;
    }
    PointsArg(f.hdr, f.Buf(), cs, tree, treeoff);
    var treeval, treelen := LookUp(f, treeoff, name, cs, tree);
    if treeval < 0 {
      return -ERR_BADOVERLAY, ds;
    }
    err, ds := UpdateCells(f, treeoff, name, fixoff, fixlen, treeval, treelen, delta, cs, tree, i);
  }

  /** What the property iterators return, from token `i` on. */
  predicate AtProp(h: Header, b: seq<byte>, cs: seq<Call>, i: nat, r: int) {
    && i <= |cs| && SkipNops(cs, i) < |cs| && CloseIndex(cs, SkipNops(cs, i), 0).Some? && !cs[SkipNops(cs, i)].Nop?
    && if cs[SkipNops(cs, i)].Prop? then r >= 0 && Points(h, b, cs, SkipNops(cs, i), r) else r == -ERR_NOTFOUND
  }

  /** nextprop_ inside a node. */
  method PropFrom(f: Fdt, from: int, ghost cs: seq<Call>, ghost i: nat) returns (r: int)
    requires f.Mapped() && Complete(f.hdr, f.Buf(), cs) && i < |cs| && CloseIndex(cs, i, 0).Some?
    requires Points(f.hdr, f.Buf(), cs, i, from)
    ensures AtProp(f.hdr, f.Buf(), cs, i, r)
  {
    hide Parse, Complete, SkipNops, CloseIndex;
    SkipNested(cs, i);
    r := NextProp(f, from, cs, i);
  }

  /** fdt_first_property_offset */
  method FirstPropertyOffset(f: Fdt, node: nat, ghost cs: seq<Call>, ghost k: nat) returns (r: int)
    requires f.Mapped() && Complete(f.hdr, f.Buf(), cs) && Nested(cs) && Points(f.hdr, f.Buf(), cs, k, node)
    requires cs[k].BeginNode?
    ensures AtProp(f.hdr, f.Buf(), cs, k + 1, r)
  {
    hide Parse, Complete, AtProp, CloseIndex;
    PointsArg(f.hdr, f.Buf(), cs, k, node);
    var next := CheckNodeOffset(f, node, cs, k);
    assert k + 1 < |cs|;
    r := PropFrom(f, next, cs, k + 1);
  }

  /** fdt_next_property_offset */
  method NextPropertyOffset(f: Fdt, prop: nat, ghost cs: seq<Call>, ghost i: nat) returns (r: int)
    requires f.Mapped() && Complete(f.hdr, f.Buf(), cs) && Points(f.hdr, f.Buf(), cs, i, prop) && cs[i].Prop?
    requires CloseIndex(cs, i, 0).Some?
    ensures AtProp(f.hdr, f.Buf(), cs, i + 1, r)
  {
    hide Parse, Complete, AtProp, NextTag, ReadsProp, NameBytes;
    At(f.hdr, f.Buf(), cs, i);
    var tag, next := FdtNextTag(f, prop);
    r := PropFrom(f, next, cs, i + 1);
  }

  /** The property loop. */
  method UpdateProps(f: Fdt, treeoff: nat, fixnode: nat, delta: u32, ghost cs: seq<Call>, ghost tree: nat,
                     ghost fix: nat)
    returns (err: int, ghost ds: seq<Call>)
    requires f.Mapped() && Complete(f.hdr, f.Buf(), cs) && Nested(cs)
    requires Points(f.hdr, f.Buf(), cs, tree, treeoff) && cs[tree].BeginNode?
    requires Points(f.hdr, f.Buf(), cs, fix, fixnode) && cs[fix].BeginNode?
    requires FixProps(cs, tree, fix + 1, delta).err != UNDEFINED
    modifies f.mem
    ensures Confined(f) && Complete(f.hdr, f.Buf(), ds) && SameShape(cs, ds)
    ensures Outcome(ds, err) == FixProps(cs, tree, fix + 1, delta)
  {
    hide Parse, Complete, SameShape, Nested, SkipNops, CloseIndex, FixProps, Off;
    ghost var h, b0 := f.hdr, f.Buf();
    ds := cs;
    ShapeSelf(cs);
    var prop := FirstPropertyOffset(f, fixnode, cs, fix);
    ghost var i := fix + 1;
    while prop >= 0
      invariant Confined(f) && f.Mapped() && f.hdr == h && Complete(h, f.Buf(), ds) && SameShape(cs, ds) && |ds| == |cs|
      invariant AtProp(h, f.Buf(), ds, i, prop)
      invariant FixProps(cs, tree, fix + 1, delta) == FixProps(ds, tree, i, delta)
      decreases |cs| - i
    {
      PropsSkip(ds, tree, i, delta);
      i := SkipNops(ds, i);
      ghost var ds1, b1 := ds, f.Buf();
      Still(h, b0, cs, f.Buf(), ds, tree, treeoff);
      err, ds := UpdateProp(f, treeoff, prop, delta, ds, tree, i);
      ShapeTrans(cs, ds1, ds);
      if err != 0 {
        return;
      }
      Still(h, b1, ds1, f.Buf(), ds, i, prop);
      ShapeClose(ds1, ds, i, 0);
      prop := NextPropertyOffset(f, prop, ds, i);
      i := i + 1;
    }
    PropsSkip(ds, tree, i, delta);
    PropsStop(ds, tree, SkipNops(ds, i), delta);
    err := 0;
  }

  lemma PropsStop(cs: seq<Call>, tree: nat, i: nat, delta: u32)
    requires tree < |cs| && i < |cs| && !cs[i].Prop? && !cs[i].Nop?
    ensures FixProps(cs, tree, i, delta) == Outcome(cs, 0)
  {
  }

  /** overlay_update_local_node_references */
  method UpdateNode(f: Fdt, treeoff: nat, fixnode: nat, delta: u32, ghost cs: seq<Call>, ghost tree: nat,
                    ghost fix: nat, ghost e: nat)
    returns (err: int, ghost ds: seq<Call>)
    requires f.Mapped() && Complete(f.hdr, f.Buf(), cs) && Nested(cs)
    requires Points(f.hdr, f.Buf(), cs, tree, treeoff) && cs[tree].BeginNode?
    requires Points(f.hdr, f.Buf(), cs, fix, fixnode) && cs[fix].BeginNode? && CloseIndex(cs, fix + 1, 0) == Some(e)
    requires FixNode(cs, tree, fix, delta).err != UNDEFINED
    modifies f.mem
    ensures Confined(f) && Complete(f.hdr, f.Buf(), ds) && SameShape(cs, ds)
    ensures Outcome(ds, err) == FixNode(cs, tree, fix, delta)
    decreases e - fix
  {
    hide Parse, Complete, SameShape, Nested, CloseIndex, NextChild, SubIndex, FixProps, Points;
    ghost var h, b0 := f.hdr, f.Buf();
    PointsIndex(h, b0, cs, fix, fixnode);
    PointsIndex(h, b0, cs, tree, treeoff);
    err, ds := UpdateProps(f, treeoff, fixnode, delta, cs, tree, fix);
    if err != 0 {
      return;
    }
    Renewed(h, b0, cs, f.Buf(), ds, fix, fixnode, fix + 1);
    var child := FirstSubnode(f, fixnode, ds, fix);
    ghost var i := fix + 1;
    while child >= 0
      invariant Confined(f) && f.Mapped() && f.hdr == h && Complete(h, f.Buf(), ds) && SameShape(cs, ds) && Nested(ds)
      invariant fix < i <= e <= |ds| == |cs| && CloseIndex(ds, i, 0) == Some(e)
      invariant FixNode(cs, tree, fix, delta) == FixChildren(ds, tree, i, delta)
      invariant match NextChild(ds, i)
                case Some(j) => Points(h, f.Buf(), ds, j, child) && child >= 0
                case None => child == -ERR_NOTFOUND
      decreases e - i
    {
      ghost var c := NextChild(ds, i).value;
      ghost var x := ChildEnd(ds, i, c, e);
      ghost var b1, ds1 := f.Buf(), ds;
      Still(h, b0, cs, b1, ds, tree, treeoff);
      var treechild := FindNamesake(f, treeoff, child, ds, tree, c);
      if treechild == -ERR_NOTFOUND {
        return -ERR_BADOVERLAY, ds;
      }
      err, ds := UpdateNode(f, treechild, child, delta, ds, SubIndex(ds, tree + 1, 0, ds[c].name).value, c, x);
      ShapeTrans(cs, ds1, ds);
      if err != 0 {
        return;
      }
      Renewed(h, b1, ds1, f.Buf(), ds, c, child, x);
      ShapeClose(ds1, ds, c + 1, 0);
      child := NextSubnode(f, child, ds, c, x);
      i := x;
    }
    err := 0;
  }

  /** Where the next subnode ends. */
  lemma ChildEnd(ds: seq<Call>, i: nat, j: nat, e: nat) returns (x: nat)
    requires Nested(ds) && i <= e <= |ds| && CloseIndex(ds, i, 0) == Some(e) && NextChild(ds, i) == Some(j)
    ensures i <= j < x < e && ds[j].BeginNode?
    ensures CloseIndex(ds, j + 1, 0) == Some(x) && CloseIndex(ds, x, 0) == Some(e)
  {
    hide CloseIndex, NextChild;
    NextInside(ds, i, e);
    x := CloseIndex(ds, j + 1, 0).value;
    CloseOuter(ds, j + 1, 0, x);
  }

  /** fdt_subnode_offset of the name of a fixup node. */
  method FindNamesake(f: Fdt, treeoff: nat, child: nat, ghost cs: seq<Call>, ghost tree: nat, ghost c: nat)
    returns (r: int)
    requires f.Mapped() && Complete(f.hdr, f.Buf(), cs) && Ended(cs)
    requires Points(f.hdr, f.Buf(), cs, tree, treeoff) && cs[tree].BeginNode? && Points(f.hdr, f.Buf(), cs, c, child)
    requires cs[c].BeginNode?
    ensures match SubIndex(cs, tree + 1, 0, cs[c].name)
            case Some(j) => Points(f.hdr, f.Buf(), cs, j, r) && cs[j].BeginNode? && r >= 0
            case None => r == -ERR_NOTFOUND
  {
    hide Parse, Complete, SubIndex, NextTag, ReadsProp;
    At(f.hdr, f.Buf(), cs, c);
    var name := NameBytes(f.hdr, f.Buf(), child);
    r := SubFrom(f, treeoff, name, cs, tree);
  }

  // ---- what the fixups list

  datatype Cell = Cell(token: nat, at: nat)

  /** Cells in the order listed, up to the first malformed entry if there is one. */
  datatype Listing = Listing(cells: seq<Cell>, ok: bool)
  {
    function Then(next: Listing): Listing {
      if ok then Listing(cells + next.cells, next.ok) else this
    }
  }

  function ListCells(cs: seq<Call>, j: nat, p: nat, i: nat): (l: seq<Cell>)
    requires p < |cs| && cs[p].Prop? && |cs[p].value| % 4 == 0 && 4 * i <= |cs[p].value|
    decreases |cs[p].value| - 4 * i
  {
    if 4 * i == |cs[p].value| then [] else [Cell(j, Ld32(cs[p].value, 4 * i))] + ListCells(cs, j, p, i + 1)
  }

  function ListProps(cs: seq<Call>, tree: nat, i: nat): (l: Listing)
    requires tree < |cs| && i <= |cs|
    decreases |cs| - i
  {
    if i == |cs| then Listing([], true) else
    match cs[i]
    case Nop => ListProps(cs, tree, i + 1)
    case Prop(name, v) =>
      if |v| % 4 != 0 || Found(cs, tree, name).None? then Listing([], false)
      else Listing(ListCells(cs, Found(cs, tree, name).value, i, 0), true).Then(ListProps(cs, tree, i + 1))
    case _ => Listing([], true)
  }

  /** The cells that a fixup node and its subnodes list, for a node of the tree
      and its subnodes of the same names. */
  function ListNode(cs: seq<Call>, tree: nat, fix: nat): (l: Listing)
    requires tree < |cs| && fix < |cs|
    decreases |cs| - fix, 0
  {
    ListProps(cs, tree, fix + 1).Then(ListChildren(cs, tree, fix + 1))
  }

  function ListChildren(cs: seq<Call>, tree: nat, i: nat): (l: Listing)
    requires tree < |cs| && i <= |cs|
    decreases |cs| - i, 1
  {
    match NextChild(cs, i)
    case None => Listing([], true)
    case Some(c) =>
      match SubIndex(cs, tree + 1, 0, cs[c].name)
      case None => Listing([], false)
      case Some(tc) =>
        match CloseIndex(cs, c + 1, 0)
        case None => ListNode(cs, tc, c)
        case Some(x) => ListNode(cs, tc, c).Then(ListChildren(cs, tree, x))
  }

  predicate Fit(cs: seq<Call>, c: Cell) {
    c.token < |cs| && cs[c.token].Prop? && c.at + 4 <= |cs[c.token].value| && c.at + 4 < TWO32
  }

  predicate Fits(cs: seq<Call>, l: seq<Cell>) {
    forall n :: 0 <= n < |l| ==> Fit(cs, l[n])
  }

  lemma ShapeFits(cs: seq<Call>, ds: seq<Call>, l: seq<Cell>)
    requires SameShape(cs, ds)
    ensures Fits(cs, l) == Fits(ds, l)
  {
    forall n | 0 <= n < |l|
      ensures Fit(cs, l[n]) == Fit(ds, l[n])
    {
      if l[n].token < |cs| {
        assert Like(cs[l[n].token], ds[l[n].token]);
      }
    }
  }

  /** Adding the offset to each of the cells, one after the other. */
  function BumpAll(cs: seq<Call>, l: seq<Cell>, delta: u32): (ds: seq<Call>)
    requires Fits(cs, l)
    ensures |ds| == |cs|
    decreases |l|
  {
    if l == [] then cs else
    assert Fit(cs, l[0]);
    var ds := BumpCell(cs, l[0].token, l[0].at, delta);
    assert Fits(ds, l[1..]) by { ShapeFits(cs, ds, l[1..]); }
    BumpAll(ds, l[1..], delta)
  }

  lemma {:induction false} BumpShape(cs: seq<Call>, l: seq<Cell>, delta: u32)
    requires Fits(cs, l)
    ensures SameShape(cs, BumpAll(cs, l, delta))
    decreases |l|
  {
    hide SameShape, BumpCell;
    ShapeSelf(cs);
    if l != [] {
      assert Fit(cs, l[0]);
      var ds := BumpCell(cs, l[0].token, l[0].at, delta);
      ShapeFits(cs, ds, l[1..]);
      BumpShape(ds, l[1..], delta);
      ShapeTrans(cs, ds, BumpAll(ds, l[1..], delta));
    }
  }

  /** The cells of one list, then those of another. */
  lemma {:induction false} BumpConcat(cs: seq<Call>, l: seq<Cell>, m: seq<Cell>, delta: u32)
    requires Fits(cs, l + m)
    ensures Fits(cs, l) && Fits(BumpAll(cs, l, delta), m)
    ensures BumpAll(cs, l + m, delta) == BumpAll(BumpAll(cs, l, delta), m, delta)
    decreases |l|
  {
    hide SameShape, BumpCell, Fit;
    FitsParts(cs, l, m);
    if l == [] {
      assert l + m == m;
    } else {
      assert Fit(cs, (l + m)[0]);
      var ds := BumpCell(cs, l[0].token, l[0].at, delta) by { FitIs(cs, l[0]); }
      assert (l + m)[1..] == l[1..] + m;
      ShapeFits(cs, ds, l[1..] + m);
      BumpConcat(ds, l[1..], m, delta);
    }
  }

  lemma FitIs(cs: seq<Call>, c: Cell)
    requires Fit(cs, c)
    ensures c.token < |cs| && cs[c.token].Prop? && c.at + 4 <= |cs[c.token].value|
  {
  }

  lemma FitsParts(cs: seq<Call>, l: seq<Cell>, m: seq<Cell>)
    ensures Fits(cs, l + m) <==> Fits(cs, l) && Fits(cs, m)
  {
    hide Fit;
    if Fits(cs, l + m) {
      assert forall n :: 0 <= n < |l| ==> (l + m)[n] == l[n];
      assert forall n :: 0 <= n < |m| ==> (l + m)[|l| + n] == m[n];
    }
  }

  /** No cell of the list lies in tokens `a` to `b`. */
  predicate Apart(l: seq<Cell>, a: nat, b: nat) {
    forall n :: 0 <= n < |l| ==> !(a <= l[n].token < b)
  }

  lemma ApartThen(l: Listing, m: Listing, a: nat, b: nat)
    requires Apart(l.Then(m).cells, a, b)
    ensures Apart(l.cells, a, b) && (l.ok ==> Apart(m.cells, a, b))
  {
    if l.ok {
      var lm := l.cells + m.cells;
      assert forall n :: 0 <= n < |l.cells| ==> lm[n] == l.cells[n];
      assert forall n :: 0 <= n < |m.cells| ==> lm[|l.cells| + n] == m.cells[n];
    }
  }

  /** The same shape, and the same values in tokens `a` to `b`. */
  predicate Agrees(cs: seq<Call>, ds: seq<Call>, a: nat, b: nat) {
    SameShape(cs, ds) && b <= |cs| && forall i :: a <= i < b ==> ds[i] == cs[i]
  }

  lemma {:induction false} BumpApart(cs: seq<Call>, l: seq<Cell>, delta: u32, a: nat, b: nat, i: nat)
    requires Fits(cs, l) && Apart(l, a, b) && a <= i < b <= |cs|
    ensures BumpAll(cs, l, delta)[i] == cs[i]
    decreases |l|
  {
    hide SameShape, Be32, Ld32;
    if l != [] {
      assert Fit(cs, l[0]);
      var ds := BumpCell(cs, l[0].token, l[0].at, delta);
      ShapeFits(cs, ds, l[1..]);
      BumpApart(ds, l[1..], delta, a, b, i);
    }
  }

  lemma BumpAgrees(cs: seq<Call>, ds: seq<Call>, l: seq<Cell>, delta: u32, a: nat, b: nat)
    requires Agrees(cs, ds, a, b) && Fits(ds, l) && Apart(l, a, b)
    ensures Agrees(cs, BumpAll(ds, l, delta), a, b)
  {
    hide SameShape, Fits, Apart;
    BumpShape(ds, l, delta);
    ShapeTrans(cs, ds, BumpAll(ds, l, delta));
    assert |cs| == |ds| by { ShapeLength(cs, ds); }
    forall i | a <= i < b
      ensures BumpAll(ds, l, delta)[i] == cs[i]
    {
      BumpApart(ds, l, delta, a, b, i);
    }
  }

  lemma ShapeLength(cs: seq<Call>, ds: seq<Call>)
    requires SameShape(cs, ds)
    ensures |cs| == |ds|
  {
  }

  /** FDT_ERR_BADOVERLAY, or no answer where an offset wraps around. */
  predicate Refuses(err: int) {
    err == -16 || err == UNDEFINED
  }

  /** A walk succeeds exactly when the list is well formed and every cell lies
      inside its value, and then it has bumped just those cells. */
  predicate Runs(o: Outcome, cs: seq<Call>, l: Listing, delta: u32) {
    if l.ok && Fits(cs, l.cells) then o == Outcome(BumpAll(cs, l.cells, delta), 0) else Refuses(o.err)
  }

  lemma RunsThen(cs: seq<Call>, o1: Outcome, l: Listing, o: Outcome, m: Listing, delta: u32)
    requires Runs(o1, cs, l, delta)
    requires o1.err != 0 ==> o == o1
    requires o1.err == 0 ==> Runs(o, o1.cs, m, delta)
    ensures Runs(o, cs, l.Then(m), delta)
  {
    hide Fits, SameShape;
    if l.ok && Fits(cs, l.cells) {
      BumpShape(cs, l.cells, delta);
      ShapeFits(cs, o1.cs, m.cells);
      FitsParts(cs, l.cells, m.cells);
      if Fits(cs, m.cells) {
        BumpConcat(cs, l.cells, m.cells, delta);
      }
    } else if l.ok {
      FitsParts(cs, l.cells, m.cells);
    }
  }

  lemma RunsNothing(cs: seq<Call>, delta: u32)
    ensures Runs(Outcome(cs, 0), cs, Listing([], true), delta)
  {
  }

  /** One cell. */
  lemma RunsOne(cs: seq<Call>, c: Cell, delta: u32)
    ensures Fit(cs, c) ==> Runs(Outcome(BumpCell(cs, c.token, c.at, delta), 0), cs, Listing([c], true), delta)
    ensures !Fit(cs, c) ==> forall o: Outcome :: Refuses(o.err) ==> Runs(o, cs, Listing([c], true), delta)
  {
    hide SameShape, Be32, Ld32;
    var l := [c];
    assert l[0] == c && l[1..] == [];
    if Fit(cs, c) {
      var ds := BumpCell(cs, c.token, c.at, delta);
      assert Fits(cs, l) && Fits(ds, []);
      assert BumpAll(cs, l, delta) == BumpAll(ds, l[1..], delta);
    }
  }

  lemma {:induction false} CellsRun(cs: seq<Call>, ds: seq<Call>, j: nat, p: nat, i: nat, delta: u32, a: nat, b: nat)
    requires Agrees(cs, ds, a, b) && a <= p < b && j < |cs| && cs[j].Prop? && ds[j].Prop?
    requires cs[p].Prop? && |cs[p].value| % 4 == 0 && 4 * i <= |cs[p].value| && Apart(ListCells(cs, j, p, i), a, b)
    ensures p < |ds| && ds[p] == cs[p]
    ensures Runs(FixCells(ds, j, p, i, delta), ds, Listing(ListCells(cs, j, p, i), true), delta)
    ensures FixCells(ds, j, p, i, delta).err == 0 ==> TraceCells(ds, j, p, i, delta) == ListCells(cs, j, p, i)
    decreases |cs[p].value| - 4 * i
  {
    hide SameShape, Be32, Ld32, Fits, Patch;
    ShapeLength(cs, ds);
    if 4 * i == |cs[p].value| {
      RunsNothing(ds, delta);
    } else {
      var c := Cell(j, Ld32(cs[p].value, 4 * i));
      var l, m := Listing([c], true), Listing(ListCells(cs, j, p, i + 1), true);
      ApartThen(l, m, a, b);
      RunsOne(ds, c, delta);
      if Fit(ds, c) {
        var es := BumpCell(ds, j, c.at, delta);
        assert l.cells[0] == c;
        ShapeTrans(cs, ds, es);
        CellsRun(cs, es, j, p, i + 1, delta, a, b);
        RunsThen(ds, Outcome(es, 0), l, FixCells(ds, j, p, i, delta), m, delta);
      } else {
        var o := FixCells(ds, j, p, i, delta);
        RunsThen(ds, o, l, o, m, delta);
      }
    }
  }

  lemma {:induction false} PropsRun(cs: seq<Call>, ds: seq<Call>, tree: nat, i: nat, e: nat, delta: u32, a: nat, b: nat)
    requires Agrees(cs, ds, a, b) && a <= i <= |cs| && CloseIndex(cs, i, 0) == Some(e) && e <= b && tree < |cs|
    requires Apart(ListProps(cs, tree, i).cells, a, b)
    ensures |ds| == |cs| && Runs(FixProps(ds, tree, i, delta), ds, ListProps(cs, tree, i), delta)
    ensures FixProps(ds, tree, i, delta).err == 0 ==> TraceProps(ds, tree, i, delta) == ListProps(cs, tree, i).cells
    decreases |cs| - i
  {
    hide SameShape, Fits, FixCells, ListCells, TraceCells, Found, Apart;
    ShapeLength(cs, ds);
    RunsNothing(ds, delta);
    assert ds[i] == cs[i];
    match cs[i]
    case Nop => PropsRun(cs, ds, tree, i + 1, e, delta, a, b);
    case Prop(name, v) =>
      ShapeFound(cs, ds, tree, name);
      if |v| % 4 == 0 && Found(cs, tree, name).Some? {
        var j := Found(cs, tree, name).value;
        var l, m := Listing(ListCells(cs, j, i, 0), true), ListProps(cs, tree, i + 1);
        ApartThen(l, m, a, b);
        CellsRun(cs, ds, j, i, 0, delta, a, b);
        var o := FixCells(ds, j, i, 0, delta);
        if o.err == 0 {
          BumpAgrees(cs, ds, l.cells, delta, a, b);
          PropsRun(cs, o.cs, tree, i + 1, e, delta, a, b);
        }
        RunsThen(ds, o, l, FixProps(ds, tree, i, delta), m, delta);
      }
    case _ =>
  }

  lemma {:induction false} NodeRun(cs: seq<Call>, ds: seq<Call>, tree: nat, fix: nat, e: nat, delta: u32, a: nat,
                                   b: nat)
    requires Agrees(cs, ds, a, b) && Nested(cs) && a <= fix < |cs| && CloseIndex(cs, fix + 1, 0) == Some(e) && e <= b
    requires tree < |cs|
    requires Apart(ListNode(cs, tree, fix).cells, a, b)
    ensures |ds| == |cs| && Runs(FixNode(ds, tree, fix, delta), ds, ListNode(cs, tree, fix), delta)
    ensures FixNode(ds, tree, fix, delta).err == 0 ==> TraceNode(ds, tree, fix, delta) == ListNode(cs, tree, fix).cells
    decreases |cs| - fix, 0
  {
    hide SameShape, Fits, FixProps, ListProps, TraceProps, Apart, CloseIndex;
    var l, m := ListProps(cs, tree, fix + 1), ListChildren(cs, tree, fix + 1);
    ApartThen(l, m, a, b);
    PropsRun(cs, ds, tree, fix + 1, e, delta, a, b);
    var o := FixProps(ds, tree, fix + 1, delta);
    if o.err == 0 {
      BumpAgrees(cs, ds, l.cells, delta, a, b);
      ChildrenRun(cs, o.cs, tree, fix + 1, e, delta, a, b);
    }
    RunsThen(ds, o, l, FixNode(ds, tree, fix, delta), m, delta);
  }

  lemma {:induction false} ChildrenRun(cs: seq<Call>, ds: seq<Call>, tree: nat, i: nat, e: nat, delta: u32, a: nat,
                                       b: nat)
    requires Agrees(cs, ds, a, b) && Nested(cs) && a <= i <= |cs| && CloseIndex(cs, i, 0) == Some(e) && e <= b
    requires tree < |cs|
    requires Apart(ListChildren(cs, tree, i).cells, a, b)
    ensures |ds| == |cs| && Runs(FixChildren(ds, tree, i, delta), ds, ListChildren(cs, tree, i), delta)
    ensures FixChildren(ds, tree, i, delta).err == 0 ==>
              TraceChildren(ds, tree, i, delta) == ListChildren(cs, tree, i).cells
    decreases |cs| - i, 1
  {
    hide SameShape, Fits, Apart, CloseIndex, NextChild, SubIndex;
    ShapeLength(cs, ds);
    RunsNothing(ds, delta);
    ShapeNext(cs, ds, i);
    if NextChild(cs, i).Some? {
      var c := NextChild(cs, i).value;
      var x := ChildEnd(cs, i, c, e);
      assert ds[c] == cs[c];
      ShapeSub(cs, ds, tree + 1, 0, cs[c].name);
      ShapeClose(cs, ds, c + 1, 0);
      if SubIndex(cs, tree + 1, 0, cs[c].name).Some? {
        var tc := SubIndex(cs, tree + 1, 0, cs[c].name).value;
        var l, m := ListNode(cs, tc, c), ListChildren(cs, tree, x);
        ApartThen(l, m, a, b);
        NodeRun(cs, ds, tc, c, x, delta, a, b);
        var o := FixNode(ds, tc, c, delta);
        if o.err == 0 {
          BumpAgrees(cs, ds, l.cells, delta, a, b);
          ChildrenRun(cs, o.cs, tree, x, e, delta, a, b);
        }
        RunsThen(ds, o, l, FixChildren(ds, tree, i, delta), m, delta);
      }
    }
  }

  // ---- references

  function CellAt(cs: seq<Call>, c: Cell): (w: u32)
    requires Fit(cs, c)
  {
    Ld32(cs[c.token].value, c.at)
  }

  predicate Overlap(c: Cell, d: Cell) {
    c.token == d.token && c.at < d.at + 4 && d.at < c.at + 4
  }

  /** Listed exactly once, and no other listed cell shares a byte with it. */
  predicate ListedOnce(l: seq<Cell>, c: Cell) {
    exists n :: 0 <= n < |l| && l[n] == c && forall m :: 0 <= m < |l| && m != n ==> !Overlap(l[m], c)
  }

  lemma BumpCellAt(cs: seq<Call>, d: Cell, delta: u32, c: Cell)
    requires Fit(cs, d) && Fit(cs, c)
    ensures var ds := BumpCell(cs, d.token, d.at, delta);
            && Fit(ds, c)
            && (c == d ==> CellAt(ds, c) == U32(CellAt(cs, c) + delta))
            && (!Overlap(d, c) ==> CellAt(ds, c) == CellAt(cs, c))
  {
    hide Be32, Ld32, Patch, U32, SameShape;
    var ds, v := BumpCell(cs, d.token, d.at, delta), cs[d.token].value;
    ShapeAt(cs, ds, c.token);
    var w := U32(Ld32(v, d.at) + delta);
    LdPatch(v, d.at, w);
    if c.token == d.token && !Overlap(d, c) {
      LdPatchOther(v, d.at, Be32(w), c.at);
    }
  }

  lemma {:induction false} BumpAllAway(cs: seq<Call>, l: seq<Cell>, delta: u32, c: Cell)
    requires Fits(cs, l) && Fit(cs, c) && forall m :: 0 <= m < |l| ==> !Overlap(l[m], c)
    ensures Fit(BumpAll(cs, l, delta), c) && CellAt(BumpAll(cs, l, delta), c) == CellAt(cs, c)
    decreases |l|
  {
    hide BumpCell, Fit, CellAt, SameShape;
    if l != [] {
      assert Fit(cs, l[0]) && !Overlap(l[0], c);
      FitIs(cs, l[0]);
      var ds := BumpCell(cs, l[0].token, l[0].at, delta);
      BumpCellAt(cs, l[0], delta, c);
      ShapeFits(cs, ds, l[1..]);
      BumpAllAway(ds, l[1..], delta, c);
    }
  }

  lemma {:induction false} BumpAllAt(cs: seq<Call>, l: seq<Cell>, delta: u32, c: Cell)
    requires Fits(cs, l) && Fit(cs, c) && ListedOnce(l, c)
    ensures Fit(BumpAll(cs, l, delta), c) && CellAt(BumpAll(cs, l, delta), c) == U32(CellAt(cs, c) + delta)
    decreases |l|
  {
    hide BumpCell, Fit, CellAt, SameShape, U32;
    var n :| 0 <= n < |l| && l[n] == c && forall m :: 0 <= m < |l| && m != n ==> !Overlap(l[m], c);
    assert Fit(cs, l[0]);
    FitIs(cs, l[0]);
    var ds := BumpCell(cs, l[0].token, l[0].at, delta);
    BumpCellAt(cs, l[0], delta, c);
    ShapeFits(cs, ds, l[1..]);
    if n == 0 {
      assert forall m :: 0 <= m < |l[1..]| ==> l[1..][m] == l[m + 1];
      BumpAllAway(ds, l[1..], delta, c);
    } else {
      assert !Overlap(l[0], c);
      assert l[1..][n - 1] == c;
      assert forall m :: 0 <= m < |l[1..]| ==> l[1..][m] == l[m + 1];
      BumpAllAt(ds, l[1..], delta, c);
    }
  }

  // ---- the cells that the walk moves

  /** The cells that the walk moves, in order, up to where it ends or fails. What it
      moves may be fixups that it has still to read; hence this follows the walk. */
  function TraceCells(cs: seq<Call>, j: nat, p: nat, i: nat, delta: u32): (l: seq<Cell>)
    requires j < |cs| && p < |cs| && cs[j].Prop? && cs[p].Prop? && |cs[p].value| % 4 == 0 && 4 * i <= |cs[p].value|
    decreases |cs[p].value| - 4 * i
  {
    if 4 * i == |cs[p].value| then [] else
    var o := Ld32(cs[p].value, 4 * i);
    if o + 4 >= TWO32 || |cs[j].value| < o + 4 then []
    else
      var ds := BumpCell(cs, j, o, delta);
      assert Like(cs[p], ds[p]) && Like(cs[j], ds[j]);
      [Cell(j, o)] + TraceCells(ds, j, p, i + 1, delta)
  }

  function TraceProps(cs: seq<Call>, tree: nat, i: nat, delta: u32): (l: seq<Cell>)
    requires tree < |cs| && i <= |cs|
    decreases |cs| - i
  {
    if i == |cs| then [] else
    match cs[i]
    case Nop => TraceProps(cs, tree, i + 1, delta)
    case Prop(name, v) =>
      if |v| % 4 != 0 || Found(cs, tree, name).None? then []
      else
        var j := Found(cs, tree, name).value;
        var o := FixCells(cs, j, i, 0, delta);
        TraceCells(cs, j, i, 0, delta) + if o.err != 0 then [] else TraceProps(o.cs, tree, i + 1, delta)
    case _ => []
  }

  function TraceNode(cs: seq<Call>, tree: nat, fix: nat, delta: u32): (l: seq<Cell>)
    requires tree < |cs| && fix < |cs|
    decreases |cs| - fix, 0
  {
    var o := FixProps(cs, tree, fix + 1, delta);
    TraceProps(cs, tree, fix + 1, delta) + if o.err != 0 then [] else TraceChildren(o.cs, tree, fix + 1, delta)
  }

  function TraceChildren(cs: seq<Call>, tree: nat, i: nat, delta: u32): (l: seq<Cell>)
    requires tree < |cs| && i <= |cs|
    decreases |cs| - i, 1
  {
    match NextChild(cs, i)
    case None => []
    case Some(c) =>
      match SubIndex(cs, tree + 1, 0, cs[c].name)
      case None => []
      case Some(tc) =>
        var o := FixNode(cs, tc, c, delta);
        match CloseIndex(cs, c + 1, 0)
        case None => TraceNode(cs, tc, c, delta)
        case Some(x) =>
          TraceNode(cs, tc, c, delta) + if o.err != 0 then [] else TraceChildren(o.cs, tree, x, delta)
  }

  /** Moving the cells of a list makes `ds` of `cs`. */
  predicate Follows(ds: seq<Call>, cs: seq<Call>, l: seq<Cell>, delta: u32) {
    Fits(cs, l) && ds == BumpAll(cs, l, delta)
  }

  lemma FollowsNothing(cs: seq<Call>, delta: u32)
    ensures Follows(cs, cs, [], delta)
  {
  }

  lemma FollowsThen(cs: seq<Call>, ds: seq<Call>, l: seq<Cell>, es: seq<Call>, m: seq<Cell>, delta: u32)
    requires Follows(ds, cs, l, delta) && Follows(es, ds, m, delta)
    ensures Follows(es, cs, l + m, delta)
  {
    hide Fits, SameShape, BumpAll;
    BumpShape(cs, l, delta);
    ShapeFits(cs, ds, m);
    FitsParts(cs, l, m);
    BumpConcat(cs, l, m, delta);
  }

  lemma {:induction false} CellsTraced(cs: seq<Call>, j: nat, p: nat, i: nat, delta: u32)
    requires j < |cs| && p < |cs| && cs[j].Prop? && cs[p].Prop? && |cs[p].value| % 4 == 0 && 4 * i <= |cs[p].value|
    ensures Follows(FixCells(cs, j, p, i, delta).cs, cs, TraceCells(cs, j, p, i, delta), delta)
    ensures forall n :: 0 <= n < |TraceCells(cs, j, p, i, delta)| ==> TraceCells(cs, j, p, i, delta)[n].token == j
    decreases |cs[p].value| - 4 * i
  {
    hide SameShape, Be32, Ld32, Follows, Patch;
    FollowsNothing(cs, delta);
    if 4 * i < |cs[p].value| {
      var o := Ld32(cs[p].value, 4 * i);
      if o + 4 < TWO32 && o + 4 <= |cs[j].value| {
        var ds := BumpCell(cs, j, o, delta);
        ShapeAt(cs, ds, p);
        ShapeAt(cs, ds, j);
        FollowsOne(cs, Cell(j, o), delta);
        CellsTraced(ds, j, p, i + 1, delta);
        FollowsThen(cs, ds, [Cell(j, o)], FixCells(ds, j, p, i + 1, delta).cs, TraceCells(ds, j, p, i + 1, delta),
                    delta);
      }
    }
  }

  lemma FollowsOne(cs: seq<Call>, c: Cell, delta: u32)
    requires Fit(cs, c)
    ensures Follows(BumpCell(cs, c.token, c.at, delta), cs, [c], delta)
  {
    hide SameShape, BumpCell;
    var l := [c];
    assert l[0] == c && l[1..] == [];
    var ds := BumpCell(cs, c.token, c.at, delta);
    assert Fits(cs, l) && Fits(ds, []);
    assert BumpAll(cs, l, delta) == BumpAll(ds, l[1..], delta);
  }

  lemma {:induction false} PropsTraced(cs: seq<Call>, tree: nat, i: nat, delta: u32)
    requires tree < |cs| && i <= |cs|
    ensures Follows(FixProps(cs, tree, i, delta).cs, cs, TraceProps(cs, tree, i, delta), delta)
    decreases |cs| - i
  {
    hide Follows, FixCells, TraceCells, Found;
    FollowsNothing(cs, delta);
    if i < |cs| {
      if cs[i].Nop? {
        PropsTraced(cs, tree, i + 1, delta);
      } else if cs[i].Prop? && |cs[i].value| % 4 == 0 && Found(cs, tree, cs[i].key).Some? {
        var j := Found(cs, tree, cs[i].key).value;
        var o, l := FixCells(cs, j, i, 0, delta), TraceCells(cs, j, i, 0, delta);
        CellsTraced(cs, j, i, 0, delta);
        assert l + [] == l;
        if o.err == 0 {
          PropsTraced(o.cs, tree, i + 1, delta);
          FollowsThen(cs, o.cs, l, FixProps(o.cs, tree, i + 1, delta).cs, TraceProps(o.cs, tree, i + 1, delta), delta);
        }
      }
    }
  }

  /** The walk moves just these cells, whatever its outcome. */
  lemma {:induction false} NodeTraced(cs: seq<Call>, tree: nat, fix: nat, delta: u32)
    requires tree < |cs| && fix < |cs|
    ensures Follows(FixNode(cs, tree, fix, delta).cs, cs, TraceNode(cs, tree, fix, delta), delta)
    decreases |cs| - fix, 0
  {
    hide Follows, FixProps, TraceProps;
    var o, l := FixProps(cs, tree, fix + 1, delta), TraceProps(cs, tree, fix + 1, delta);
    PropsTraced(cs, tree, fix + 1, delta);
    assert l + [] == l;
    if o.err == 0 {
      ChildrenTraced(o.cs, tree, fix + 1, delta);
      FollowsThen(cs, o.cs, l, FixChildren(o.cs, tree, fix + 1, delta).cs, TraceChildren(o.cs, tree, fix + 1, delta),
                  delta);
    }
  }

  lemma {:induction false} ChildrenTraced(cs: seq<Call>, tree: nat, i: nat, delta: u32)
    requires tree < |cs| && i <= |cs|
    ensures Follows(FixChildren(cs, tree, i, delta).cs, cs, TraceChildren(cs, tree, i, delta), delta)
    decreases |cs| - i, 1
  {
    hide Follows, NextChild, SubIndex, CloseIndex;
    FollowsNothing(cs, delta);
    if NextChild(cs, i).Some? {
      var c := NextChild(cs, i).value;
      if SubIndex(cs, tree + 1, 0, cs[c].name).Some? {
        var tc := SubIndex(cs, tree + 1, 0, cs[c].name).value;
        NodeTraced(cs, tc, c, delta);
        var o, l := FixNode(cs, tc, c, delta), TraceNode(cs, tc, c, delta);
        assert l + [] == l;
        if o.err == 0 && CloseIndex(cs, c + 1, 0).Some? {
          var x := CloseIndex(cs, c + 1, 0).value;
          ChildrenTraced(o.cs, tree, x, delta);
          FollowsThen(cs, o.cs, l, FixChildren(o.cs, tree, x, delta).cs, TraceChildren(o.cs, tree, x, delta), delta);
        }
      }
    }
  }

  // ---- phandles are never listed

  /** No cell of the list lies in a phandle property of a node before token `e`. */
  predicate Spares(cs: seq<Call>, e: nat, l: seq<Cell>) {
    forall n, x :: 0 <= n < |l| && 0 <= x < e && x < |cs| && cs[x].BeginNode? ==> !Owns(cs, x, l[n].token)
  }

  /** Every phandle property of a node before token `e` is one cell, no less than the offset. */
  ghost predicate Shifted(cs: seq<Call>, e: nat, delta: u32) {
    forall x, j :: 0 <= x < e && x < |cs| && cs[x].BeginNode? && Owns(cs, x, j) ==> Above(cs, j, delta)
  }

  predicate Above(cs: seq<Call>, j: nat, delta: u32) {
    j < |cs| && cs[j].Prop? && |cs[j].value| == 4 && Ld32(cs[j].value, 0) >= delta
  }

  /** As the first walk leaves them. */
  lemma AdjustShifts(cs: seq<Call>, e: nat, delta: u32)
    requires e <= |cs| && AdjustRange(cs, 0, e, delta).err == 0
    ensures Shifted(AdjustRange(cs, 0, e, delta).cs, e, delta)
  {
    hide AdjustRange, SameShape, Owns;
    var ds := AdjustRange(cs, 0, e, delta).cs;
    RangeShape(cs, 0, e, delta);
    forall x, j | 0 <= x < e && x < |ds| && ds[x].BeginNode? && Owns(ds, x, j)
      ensures Above(ds, j, delta)
    {
      ShapeAt(cs, ds, x);
      ShapeOwns(cs, ds, x, j);
      OwnsInside(cs, x, j);
      RangeMoves(cs, 0, e, delta, x, j);
    }
  }

  lemma OwnsInside(cs: seq<Call>, x: nat, j: nat)
    requires Owns(cs, x, j)
    ensures x < j < |cs| && cs[j].Prop? && (cs[j].key == PHANDLE || cs[j].key == LINUX_PHANDLE)
    ensures Found(cs, x, cs[j].key) == Some(j)
  {
    hide PropScan;
  }

  lemma SparesConcat(cs: seq<Call>, ds: seq<Call>, e: nat, l: seq<Cell>, m: seq<Cell>)
    requires SameShape(cs, ds) && Spares(cs, e, l) && Spares(ds, e, m)
    ensures Spares(cs, e, l + m)
  {
    hide Owns, SameShape;
    forall n, x | 0 <= n < |l + m| && 0 <= x < e && x < |cs| && cs[x].BeginNode?
      ensures !Owns(cs, x, (l + m)[n].token)
    {
      if n < |l| {
        assert (l + m)[n] == l[n];
      } else {
        assert (l + m)[n] == m[n - |l|];
        ShapeAt(cs, ds, x);
        ShapeOwns(cs, ds, x, m[n - |l|].token);
        ShapeLength(cs, ds);
      }
    }
  }

  lemma SparesNothing(cs: seq<Call>, e: nat)
    ensures Spares(cs, e, [])
  {
  }

  lemma SparesToken(cs: seq<Call>, l: seq<Cell>, delta: u32, e: nat, x: nat, j: nat)
    requires Fits(cs, l) && Spares(cs, e, l) && x < e && x < |cs| && cs[x].BeginNode? && Owns(cs, x, j) && j < |cs|
    ensures BumpAll(cs, l, delta)[j] == cs[j]
  {
    hide Owns, Fits, BumpAll;
    forall n | 0 <= n < |l|
      ensures l[n].token != j
    {
      assert !Owns(cs, x, l[n].token);
    }
    BumpApart(cs, l, delta, j, j + 1, j);
  }

  /** Cells outside the phandles leave them as they are. */
  lemma ShiftedStays(cs: seq<Call>, ds: seq<Call>, l: seq<Cell>, e: nat, delta: u32)
    requires Follows(ds, cs, l, delta) && Spares(cs, e, l) && Shifted(cs, e, delta)
    ensures SameShape(cs, ds) && |ds| == |cs| && Shifted(ds, e, delta)
  {
    hide Owns, SameShape, Fits, BumpAll, Spares;
    BumpShape(cs, l, delta);
    ShapeLength(cs, ds);
    forall x, j | 0 <= x < e && x < |ds| && ds[x].BeginNode? && Owns(ds, x, j)
      ensures Above(ds, j, delta)
    {
      ShapeAt(cs, ds, x);
      ShapeOwns(cs, ds, x, j);
      OwnsInside(cs, x, j);
      assert Above(cs, j, delta);
      SparesToken(cs, l, delta, e, x, j);
    }
  }

  lemma CellsSpare(cs: seq<Call>, j: nat, p: nat, delta: u32, e: nat)
    requires j < |cs| && p < |cs| && cs[j].Prop? && cs[p].Prop? && |cs[p].value| % 4 == 0
    requires forall x :: 0 <= x < e && x < |cs| && cs[x].BeginNode? ==> !Owns(cs, x, j)
    ensures Spares(cs, e, TraceCells(cs, j, p, 0, delta))
  {
    hide Owns, TraceCells, FixCells, Follows;
    CellsTraced(cs, j, p, 0, delta);
  }

  /** A fixup for a phandle property of a node before `e` fails at once: it has the
      name of a phandle property too, and so the first walk has moved the one
      offset that it lists beyond the one cell there is. */
  lemma PhandleFixup(cs: seq<Call>, c: nat, i: nat, tree: nat, e: nat, delta: u32, x: nat)
    requires delta > 0 && Shifted(cs, e, delta) && c < i < |cs| && c < e && cs[c].BeginNode?
    requires tree < |cs| && cs[tree].BeginNode? && cs[i].Prop? && Found(cs, tree, cs[i].key).Some?
    requires tree < e ==> PropScan(cs, c + 1, PHANDLE) == PropScan(cs, i, PHANDLE)
    requires tree < e ==> PropScan(cs, c + 1, LINUX_PHANDLE) == PropScan(cs, i, LINUX_PHANDLE)
    requires x < e && x < |cs| && cs[x].BeginNode? && Owns(cs, x, Found(cs, tree, cs[i].key).value)
    ensures |cs[i].value| == 4
    ensures FixCells(cs, Found(cs, tree, cs[i].key).value, i, 0, delta).err != 0
    ensures TraceCells(cs, Found(cs, tree, cs[i].key).value, i, 0, delta) == []
  {
    hide Ld32;
    var name := cs[i].key;
    var j := Found(cs, tree, name).value;
    OwnsInside(cs, x, j);
    if x < tree {
      OwnsBefore(cs, x, tree, j);
    }
    assert tree <= x;
    assert PropScan(cs, i, name) == i;
    assert Found(cs, c, name) == Some(i);
    assert Owns(cs, c, i) && Above(cs, i, delta) && Above(cs, j, delta);
  }

  lemma {:induction false} PropsSpare(cs: seq<Call>, tree: nat, i: nat, delta: u32, c: nat, e: nat)
    requires delta > 0 && Shifted(cs, e, delta) && c < i <= |cs| && c < e && cs[c].BeginNode?
    requires tree < |cs| && cs[tree].BeginNode?
    requires tree < e ==> PropScan(cs, c + 1, PHANDLE) == PropScan(cs, i, PHANDLE)
    requires tree < e ==> PropScan(cs, c + 1, LINUX_PHANDLE) == PropScan(cs, i, LINUX_PHANDLE)
    ensures Spares(cs, e, TraceProps(cs, tree, i, delta))
    decreases |cs| - i
  {
    hide Shifted, Owns, SameShape, FixCells, TraceCells, Found, Follows, Spares;
    SparesNothing(cs, e);
    if i < |cs| {
      if cs[i].Nop? {
        PropsSpare(cs, tree, i + 1, delta, c, e);
      } else if cs[i].Prop? && |cs[i].value| % 4 == 0 && Found(cs, tree, cs[i].key).Some? {
        var j := Found(cs, tree, cs[i].key).value;
        if x :| 0 <= x < e && x < |cs| && cs[x].BeginNode? && Owns(cs, x, j) {
          PhandleFixup(cs, c, i, tree, e, delta, x);
          assert TraceProps(cs, tree, i, delta) == [];
        } else {
          var o, l := FixCells(cs, j, i, 0, delta), TraceCells(cs, j, i, 0, delta);
          CellsSpare(cs, j, i, delta, e);
          CellsTraced(cs, j, i, 0, delta);
          ShiftedStays(cs, o.cs, l, e, delta);
          assert l + [] == l;
          if o.err == 0 {
            NextProps(cs, o.cs, tree, i, c, e, j);
            PropsSpare(o.cs, tree, i + 1, delta, c, e);
            SparesConcat(cs, o.cs, e, l, TraceProps(o.cs, tree, i + 1, delta));
          }
        }
      }
    }
  }

  /** After a fixup property for a property that is no phandle. */
  lemma NextProps(cs: seq<Call>, ds: seq<Call>, tree: nat, i: nat, c: nat, e: nat, j: nat)
    requires SameShape(cs, ds) && |ds| == |cs| && c < i < |cs| && tree < |cs| && cs[tree].BeginNode?
    requires cs[c].BeginNode? && cs[i].Prop? && Found(cs, tree, cs[i].key) == Some(j)
    requires tree < e ==> !Owns(cs, tree, j)
    requires tree < e ==> PropScan(cs, c + 1, PHANDLE) == PropScan(cs, i, PHANDLE)
    requires tree < e ==> PropScan(cs, c + 1, LINUX_PHANDLE) == PropScan(cs, i, LINUX_PHANDLE)
    ensures ds[tree].BeginNode? && ds[c].BeginNode?
    ensures tree < e ==> PropScan(ds, c + 1, PHANDLE) == PropScan(ds, i + 1, PHANDLE)
    ensures tree < e ==> PropScan(ds, c + 1, LINUX_PHANDLE) == PropScan(ds, i + 1, LINUX_PHANDLE)
  {
    hide SameShape, Found, PropScan;
    ShapeAt(cs, ds, tree);
    ShapeAt(cs, ds, c);
    ShapeScan(cs, ds, c + 1, PHANDLE);
    ShapeScan(cs, ds, i + 1, PHANDLE);
    ShapeScan(cs, ds, c + 1, LINUX_PHANDLE);
    ShapeScan(cs, ds, i + 1, LINUX_PHANDLE);
    PropScanHere(cs, i, PHANDLE);
    PropScanHere(cs, i, LINUX_PHANDLE);
  }

  lemma {:induction false} NodeSpare(cs: seq<Call>, tree: nat, fix: nat, delta: u32, z: nat, e: nat)
    requires delta > 0 && Shifted(cs, e, delta) && Nested(cs) && fix < |cs| && cs[fix].BeginNode?
    requires CloseIndex(cs, fix + 1, 0) == Some(z) && z <= e && tree < |cs| && cs[tree].BeginNode?
    ensures Spares(cs, e, TraceNode(cs, tree, fix, delta))
    decreases |cs| - fix, 0
  {
    hide Shifted, Owns, SameShape, FixProps, TraceProps, Follows, Spares, CloseIndex, PropScan;
    CloseAfter(cs, fix + 1, 0);
    var o, l := FixProps(cs, tree, fix + 1, delta), TraceProps(cs, tree, fix + 1, delta);
    PropsSpare(cs, tree, fix + 1, delta, fix, e);
    PropsTraced(cs, tree, fix + 1, delta);
    ShiftedStays(cs, o.cs, l, e, delta);
    assert l + [] == l;
    if o.err == 0 {
      ShapeNested(cs, o.cs);
      ShapeClose(cs, o.cs, fix + 1, 0);
      ShapeAt(cs, o.cs, tree);
      ChildrenSpare(o.cs, tree, fix + 1, delta, z, e);
      SparesConcat(cs, o.cs, e, l, TraceChildren(o.cs, tree, fix + 1, delta));
    }
  }

  lemma CloseAfter(cs: seq<Call>, i: nat, d: nat)
    requires i <= |cs| && CloseIndex(cs, i, d).Some?
    ensures i < CloseIndex(cs, i, d).value
  {
  }

  lemma {:induction false} ChildrenSpare(cs: seq<Call>, tree: nat, i: nat, delta: u32, z: nat, e: nat)
    requires delta > 0 && Shifted(cs, e, delta) && Nested(cs) && i <= z <= |cs| && CloseIndex(cs, i, 0) == Some(z)
    requires z <= e && tree < |cs| && cs[tree].BeginNode?
    ensures Spares(cs, e, TraceChildren(cs, tree, i, delta))
    decreases |cs| - i, 1
  {
    hide Shifted, Owns, SameShape, Follows, Spares, CloseIndex, NextChild, SubIndex;
    SparesNothing(cs, e);
    if NextChild(cs, i).Some? {
      var c := NextChild(cs, i).value;
      var x := ChildEnd(cs, i, c, z);
      if SubIndex(cs, tree + 1, 0, cs[c].name).Some? {
        var tc := SubIndex(cs, tree + 1, 0, cs[c].name).value;
        SubIsNode(cs, tree + 1, 0, cs[c].name);
        NodeSpare(cs, tc, c, delta, x, e);
        NodeTraced(cs, tc, c, delta);
        var o, l := FixNode(cs, tc, c, delta), TraceNode(cs, tc, c, delta);
        ShiftedStays(cs, o.cs, l, e, delta);
        assert l + [] == l;
        if o.err == 0 {
          ShapeNested(cs, o.cs);
          ShapeClose(cs, o.cs, x, 0);
          ShapeAt(cs, o.cs, tree);
          ChildrenSpare(o.cs, tree, x, delta, z, e);
          SparesConcat(cs, o.cs, e, l, TraceChildren(o.cs, tree, x, delta));
        }
      }
    }
  }

  lemma {:induction false} SubIsNode(cs: seq<Call>, i: nat, d: nat, name: seq<byte>)
    requires i <= |cs| && SubIndex(cs, i, d, name).Some?
    ensures cs[SubIndex(cs, i, d, name).value].BeginNode?
    decreases |cs| - i
  {
    hide NameMatches;
    match cs[i]
    case BeginNode(n) =>
      if !(d == 0 && NameMatches(n, name)) {
        SubIsNode(cs, i + 1, d + 1, name);
      }
    case EndNode => SubIsNode(cs, i + 1, d - 1, name);
    case _ => SubIsNode(cs, i + 1, d, name);
  }

  // ---- references are kept

  /** After the phandles of an overlay were moved by a positive offset, the walk over
      its fixups, successful or not, moves no cell of a phandle property. */
  lemma PhandlesSpared(cs: seq<Call>, e: nat, fix: nat, delta: u32)
    requires Nested(cs) && cs[0].BeginNode? && e <= |cs| && fix < |cs| && cs[fix].BeginNode?
    requires CloseIndex(cs, fix + 1, 0).value <= e && AdjustRange(cs, 0, e, delta).err == 0 && delta > 0
    ensures var ds := AdjustRange(cs, 0, e, delta).cs; Spares(ds, e, TraceNode(ds, 0, fix, delta))
  {
    hide SameShape, AdjustRange, CloseIndex, Shifted, Spares, TraceNode;
    var ds := AdjustRange(cs, 0, e, delta).cs;
    RangeShape(cs, 0, e, delta);
    ShapeNested(cs, ds);
    ShapeClose(cs, ds, fix + 1, 0);
    ShapeAt(cs, ds, 0);
    ShapeAt(cs, ds, fix);
    AdjustShifts(cs, e, delta);
    NodeSpare(ds, 0, fix, delta, CloseIndex(ds, fix + 1, 0).value, e);
  }

  lemma BumpPhandle(cs: seq<Call>, l: seq<Cell>, delta: u32, e: nat, x: nat)
    requires Fits(cs, l) && Spares(cs, e, l) && x < e && x < |cs| && cs[x].BeginNode?
    ensures PhandleOf(BumpAll(cs, l, delta), x) == PhandleOf(cs, x)
  {
    hide Found, Ld32, Fits, BumpAll, SameShape, Spares;
    var ds := BumpAll(cs, l, delta);
    BumpShape(cs, l, delta);
    ShapeFound(cs, ds, x, PHANDLE);
    ShapeFound(cs, ds, x, LINUX_PHANDLE);
    if Found(cs, x, PHANDLE).Some? {
      SparesToken(cs, l, delta, e, x, Found(cs, x, PHANDLE).value);
    }
    if Found(cs, x, LINUX_PHANDLE).Some? {
      SparesToken(cs, l, delta, e, x, Found(cs, x, LINUX_PHANDLE).value);
    }
  }

  /** Adding nothing changes nothing. */
  lemma BumpCellZero(cs: seq<Call>, c: Cell)
    requires Fit(cs, c)
    ensures BumpCell(cs, c.token, c.at, 0) == cs
  {
    hide SameShape, Ld32, Be32;
    var v := cs[c.token].value;
    WordBytes(v, c.at);
    assert Patch(v, c.at, v[c.at..c.at + 4]) == v;
  }

  lemma WordBytes(v: seq<byte>, at: nat)
    requires at + 4 <= |v|
    ensures Be32(Ld32(v, at)) == v[at..at + 4]
  {
    var b0: int, b1: int, b2: int, b3: int := v[at], v[at + 1], v[at + 2], v[at + 3];
    var hi, lo := b0 * 0x100 + b1, b2 * 0x100 + b3;
    var w := Ld32(v, at);
    assert w == hi * 0x1_0000 + lo;
    assert w / 0x1_0000 == hi && w % 0x1_0000 == lo;
    assert hi / 0x100 == b0 && hi % 0x100 == b1 && lo / 0x100 == b2 && lo % 0x100 == b3;
    assert v[at..at + 4] == [b0, b1, b2, b3];
  }

  lemma {:induction false} BumpZero(cs: seq<Call>, l: seq<Cell>)
    requires Fits(cs, l)
    ensures BumpAll(cs, l, 0) == cs
    decreases |l|
  {
    hide BumpCell, SameShape;
    if l != [] {
      assert Fit(cs, l[0]);
      BumpCellZero(cs, l[0]);
      BumpZero(cs, l[1..]);
    }
  }

  /** What the first walk does to a cell. */
  lemma CellAdjusted(cs: seq<Call>, e: nat, delta: u32, c: Cell)
    requires e <= |cs| && AdjustRange(cs, 0, e, delta).err == 0 && Fit(cs, c)
    ensures var ds := AdjustRange(cs, 0, e, delta).cs;
            && Fit(ds, c)
            && (delta == 0 ==> CellAt(ds, c) == CellAt(cs, c))
            && ((forall x :: 0 <= x < e && cs[x].BeginNode? ==> !Owns(cs, x, c.token)) ==>
                CellAt(ds, c) == CellAt(cs, c))
  {
    hide AdjustRange, SameShape, Owns, Ld32;
    var ds := AdjustRange(cs, 0, e, delta).cs;
    RangeShape(cs, 0, e, delta);
    ShapeAt(cs, ds, c.token);
    if x :| 0 <= x < e && cs[x].BeginNode? && Owns(cs, x, c.token) {
      RangeMoves(cs, 0, e, delta, x, c.token);
    } else {
      RangeFrame(cs, 0, e, delta, c.token);
    }
  }

  /** References are kept.  `cs` is the overlay, whose phandles are moved first and
      whose fixups are walked then.  A cell that the walk moves exactly once names
      a node of the overlay afterwards exactly when it named that node before. */
  lemma ReferencesKept(cs: seq<Call>, e: nat, fix: nat, delta: u32, c: Cell, x: nat)
    requires Nested(cs) && cs[0].BeginNode? && e <= |cs| && fix < |cs| && cs[fix].BeginNode?
    requires CloseIndex(cs, fix + 1, 0).value <= e && AdjustRange(cs, 0, e, delta).err == 0
    requires ListedOnce(TraceNode(AdjustRange(cs, 0, e, delta).cs, 0, fix, delta), c)
    requires Fit(cs, c) && x < e && cs[x].BeginNode? && HasPhandle(cs, x)
    ensures var es := FixNode(AdjustRange(cs, 0, e, delta).cs, 0, fix, delta).cs;
            Fit(es, c) && (CellAt(es, c) == PhandleOf(es, x) <==> CellAt(cs, c) == PhandleOf(cs, x))
  {
    hide SameShape, AdjustRange, CloseIndex, FixNode, TraceNode, Fit, Fits, ListedOnce, Spares, BumpAll;
    hide CellAt, HasPhandle, PhandleOf;
    var ds := AdjustRange(cs, 0, e, delta).cs;
    var l := TraceNode(ds, 0, fix, delta);
    RangeShape(cs, 0, e, delta);
    ShapeAt(cs, ds, x);
    NodeTraced(ds, 0, fix, delta);
    Renumbered(cs, 0, e, delta, x);
    CellAdjusted(cs, e, delta, c);
    if delta == 0 {
      BumpZero(ds, l);
    } else {
      PhandlesSpared(cs, e, fix, delta);
      CellSpared(cs, ds, e, l, c);
      BumpAllAt(ds, l, delta, c);
      BumpPhandle(ds, l, delta, e, x);
      PhandleRoom(cs, e, delta, x);
      SameAfterShift(CellAt(cs, c), PhandleOf(cs, x), delta);
    }
  }

  /** A cell that the walk moves is not in a phandle property. */
  lemma CellSpared(cs: seq<Call>, ds: seq<Call>, e: nat, l: seq<Cell>, c: Cell)
    requires e <= |cs| && SameShape(cs, ds) && Spares(ds, e, l) && ListedOnce(l, c)
    ensures forall x :: 0 <= x < e && cs[x].BeginNode? ==> !Owns(cs, x, c.token)
  {
    hide SameShape, Owns;
    var n :| 0 <= n < |l| && l[n] == c;
    forall x | 0 <= x < e && cs[x].BeginNode?
      ensures !Owns(cs, x, c.token)
    {
      ShapeOwns(cs, ds, x, c.token);
      ShapeAt(cs, ds, x);
      ShapeLength(cs, ds);
      assert !Owns(ds, x, l[n].token);
    }
  }

  /** When the fixups list no cell of their own and the walk succeeds, it moves just
      the cells that they list, in their order. */
  lemma TraceListed(cs: seq<Call>, fix: nat, delta: u32)
    requires Nested(cs) && fix < |cs| && cs[fix].BeginNode? && FixNode(cs, 0, fix, delta).err == 0
    requires Apart(ListNode(cs, 0, fix).cells, fix, CloseIndex(cs, fix + 1, 0).value)
    ensures TraceNode(cs, 0, fix, delta) == ListNode(cs, 0, fix).cells
  {
    hide SameShape, CloseIndex, FixNode, ListNode, TraceNode, Apart;
    var b := CloseIndex(cs, fix + 1, 0).value;
    AgreesSelf(cs, fix, b);
    NodeRun(cs, cs, 0, fix, b, delta, fix, b);
  }

  lemma AgreesSelf(cs: seq<Call>, a: nat, b: nat)
    requires b <= |cs|
    ensures Agrees(cs, cs, a, b)
  {
  }

  /** Adding one offset to two words keeps them equal or different, wrap-around or not. */
  lemma SameAfterShift(v: u32, p: u32, delta: u32)
    requires p + delta < TWO32
    ensures U32(v + delta) == p + delta <==> v == p
  {
  }

  lemma PhandleRoom(cs: seq<Call>, e: nat, delta: u32, x: nat)
    requires x < e <= |cs| && cs[x].BeginNode? && AdjustRange(cs, 0, e, delta).err == 0 && HasPhandle(cs, x)
    ensures PhandleOf(cs, x) + delta < TWO32
  {
    hide AdjustRange, PhandleOf, HasPhandle;
    Renumbered(cs, 0, e, delta, x);
  }

  // ---- a fixup for a phandle

  /** "__local_fixups__" */
  const FIXUPS: CStr := FIXUPS_PATH[1..]

  /** A root with phandle `p` whose fixups list that very cell, at offset `o`. */
  function ListedPhandle(p: u32, o: u32): (cs: seq<Call>) {
    [BeginNode([]), Prop(PHANDLE, Be32(p)), BeginNode(FIXUPS), Prop(PHANDLE, Be32(o)), EndNode, EndNode, End]
  }

  lemma ListedFound(cs: seq<Call>)
    requires SameShape(ListedPhandle(1, 0), cs)
    ensures Found(cs, 0, PHANDLE) == Some(1) && Found(cs, 2, PHANDLE) == Some(3)
    ensures Found(cs, 0, LINUX_PHANDLE) == None && Found(cs, 2, LINUX_PHANDLE) == None
  {
    hide Be32;
    var ds := ListedPhandle(1, 0);
    assert |PHANDLE| != |LINUX_PHANDLE|;
    assert PropScan(ds, 1, PHANDLE) == 1 && PropScan(ds, 3, PHANDLE) == 3;
    assert PropScan(ds, 1, LINUX_PHANDLE) == PropScan(ds, 2, LINUX_PHANDLE) == 2;
    assert PropScan(ds, 3, LINUX_PHANDLE) == PropScan(ds, 4, LINUX_PHANDLE) == 4;
    hide PropScan, SameShape;
    ShapeFound(ds, cs, 0, PHANDLE);
    ShapeFound(ds, cs, 2, PHANDLE);
    ShapeFound(ds, cs, 0, LINUX_PHANDLE);
    ShapeFound(ds, cs, 2, LINUX_PHANDLE);
  }

  lemma ListedNode(cs: seq<Call>, k: nat, j: nat, delta: u32)
    requires SameShape(ListedPhandle(1, 0), cs) && (k == 0 || k == 2) && j == k + 1
    requires cs[j].Prop? && |cs[j].value| == 4 && Ld32(cs[j].value, 0) + delta < MAX_WORD
    ensures AdjustNode(cs, k, delta) == Outcome(WithValue(cs, j, 0, Be32(Ld32(cs[j].value, 0) + delta)), 0)
  {
    hide Be32, Ld32, SameShape, Found;
    ListedFound(cs);
    var ds := AddOffset(cs, k, PHANDLE, delta).cs;
    ShapeTrans(ListedPhandle(1, 0), cs, ds);
    ListedFound(ds);
  }

  /** The first walk moves the listed offset as it moves every phandle. */
  lemma ListedAdjusts()
    ensures AdjustRange(ListedPhandle(1, 0), 0, 5, 5) == Outcome(ListedPhandle(6, 5), 0)
  {
    hide Be32, Ld32, AdjustNode, SameShape;
    var cs := ListedPhandle(1, 0);
    ShapeSelf(cs);
    ListedNode(cs, 0, 1, 5);
    var ds := ListedPhandle(6, 0);
    assert Patch(Be32(1), 0, Be32(6)) == Be32(6) && Patch(Be32(0), 0, Be32(5)) == Be32(5);
    assert AdjustNode(cs, 0, 5) == Outcome(ds, 0);
    NodeShape(cs, 0, 5);
    ListedNode(ds, 2, 3, 5);
    var es := ListedPhandle(6, 5);
    assert AdjustNode(ds, 2, 5) == Outcome(es, 0);
    RangeIdle(es, 3, 5, 5);
    assert AdjustRange(ds, 2, 5, 5) == Outcome(es, 0);
    assert AdjustRange(ds, 1, 5, 5) == Outcome(es, 0);
  }

  /** So a listed phandle makes the second walk fail, here with the offset 5. */
  lemma ListedPhandleFails()
    ensures var o := AdjustRange(ListedPhandle(1, 0), 0, 5, 5);
            o.err == 0 && FixNode(o.cs, 0, 2, 5) == Outcome(o.cs, -ERR_BADOVERLAY)
  {
    hide Be32, Ld32, AdjustRange, SameShape, Found;
    ListedAdjusts();
    var es := ListedPhandle(6, 5);
    assert SameShape(ListedPhandle(1, 0), es) by { RangeShape(ListedPhandle(1, 0), 0, 5, 5); }
    ListedFound(es);
    assert FixCells(es, 1, 3, 0, 5) == Outcome(es, -ERR_BADOVERLAY);
    assert FixProps(es, 0, 3, 5) == Outcome(es, -ERR_BADOVERLAY);
  }

  // ---- the steps of fdt_overlay_apply that renumber

  /** "/__local_fixups__" */
  const FIXUPS_PATH: CStr :=
    [0x2f, 0x5f, 0x5f, 0x6c, 0x6f, 0x63, 0x61, 0x6c, 0x5f, 0x66, 0x69, 0x78, 0x75, 0x70, 0x73, 0x5f, 0x5f]

  function FixupsNode(cs: seq<Call>): (r: Option<nat>)
    requires |cs| > 0
    ensures r.Some? ==> r.value < |cs|
  {
    Resolve(cs, 0, Comps(FIXUPS_PATH, 0))
  }

  /** overlay_update_local_references, on tokens. */
  function UpdatedReferences(cs: seq<Call>, delta: u32): (r: Outcome)
    requires |cs| > 0
  {
    match FixupsNode(cs)
    case None => Outcome(cs, 0)
    case Some(fix) => FixNode(cs, 0, fix, delta)
  }

  /** overlay_update_local_references */
  method UpdateLocalReferences(f: Fdt, delta: u32, ghost cs: seq<Call>) returns (err: int, ghost ds: seq<Call>)
    requires f.Mapped() && Complete(f.hdr, f.Buf(), cs) && Nested(cs) && cs[0].BeginNode? && RoProbe(f.hdr) >= 0
    requires UpdatedReferences(cs, delta).err != UNDEFINED
    modifies f.mem
    ensures Confined(f) && Complete(f.hdr, f.Buf(), ds) && SameShape(cs, ds)
    ensures Outcome(ds, err) == UpdatedReferences(cs, delta)
  {
    hide Parse, Complete, SameShape, CloseIndex, FixNode, Comps, Resolve, RoProbe;
    ds := cs;
    ShapeSelf(cs);
    OffZero(f.hdr, f.Buf(), cs);
    var fixups := PathOffset(f, FIXUPS_PATH, cs);
    if fixups < 0 {
      return 0, ds;
    }
    ghost var fix := FixupsNode(cs).value;
    ResolveNode(cs, 0, Comps(FIXUPS_PATH, 0));
    err, ds := UpdateNode(f, 0, fixups, delta, cs, 0, fix, CloseIndex(cs, fix + 1, 0).value);
  }

  lemma {:induction false} ResolveNode(cs: seq<Call>, k: nat, names: seq<seq<byte>>)
    requires k < |cs| && cs[k].BeginNode? && Resolve(cs, k, names).Some?
    ensures cs[Resolve(cs, k, names).value].BeginNode?
    decreases |names|
  {
    hide Open, Trail;
    ResolveTrail(cs, k, names);
  }

  /** fdt_overlay_apply up to and including the local references: the largest
      phandle of the base is added to the phandles of the overlay and to its
      local references. */
  method Renumber(base: Fdt, f: Fdt, ghost bs: seq<Call>, ghost cs: seq<Call>)
    returns (err: int, delta: u32, ghost ds: seq<Call>)
    requires base.mem != f.mem
    requires base.Mapped() && Complete(base.hdr, base.Buf(), bs) && Nested(bs)
    requires f.Mapped() && Complete(f.hdr, f.Buf(), cs) && Nested(cs) && cs[0].BeginNode? && RoProbe(f.hdr) >= 0
    requires forall d: u32 ::
      UpdatedReferences(AdjustRange(cs, 0, CloseIndex(cs, 1, 0).value, d).cs, d).err != UNDEFINED
    modifies f.mem
    ensures Confined(f) && Complete(f.hdr, f.Buf(), ds) && MaxPhandle(bs, delta)
    ensures var o := AdjustRange(cs, 0, CloseIndex(cs, 1, 0).value, delta);
            Outcome(ds, err) == if o.err != 0 then o else UpdatedReferences(o.cs, delta)
  {
    hide Parse, Complete, SameShape, CloseIndex, AdjustRange, UpdatedReferences, MaxPhandle, RoProbe;
    delta := FindMaxPhandle(base, bs);
    ghost var b := f.Buf();
    OffZero(f.hdr, b, cs);
    err, ds := AdjustNodePhandles(f, 0, delta, cs, 0, CloseIndex(cs, 1, 0).value);
    if err != 0 {
      return;
    }
    Still(f.hdr, b, cs, f.Buf(), ds, 0, 0);
    err, ds := UpdateLocalReferences(f, delta, ds);
  }
}
