/** Finished blobs and what readers get out of them: names, values, and the
    token sequence that stepping fdt_next_tag visits. */
module Reader {
  import opened Bytes
  import opened Tokens
  import opened Blob
  import opened StringTable

  /** The strings block of a finished blob. */
  function StringsBlock(h: Header, b: seq<byte>): (s: seq<byte>)
    requires |b| == h.totalsize && h.offStrings + h.sizeStrings <= h.totalsize
    ensures |s| == h.sizeStrings
  {
    Block(b, h.offStrings, h.sizeStrings)
  }

  /** A finished version 17 blob whose structure says `cs`. */
  predicate Complete(h: Header, b: seq<byte>, cs: seq<Call>) {
    && h.magic == FDT_MAGIC && h.version == 17
    && h.totalsize < TWO31 && |b| == h.totalsize
    && h.offRsvmap <= h.offStruct
    && h.offStruct + h.sizeStruct <= h.offStrings
    && h.offStrings + h.sizeStrings <= h.totalsize
    && Denotes(StructBlock(h, b), cs, StringsBlock(h, b), 0)
  }

  lemma PropHead(s: seq<byte>, key: u32, v: seq<byte>)
    requires HeadToken(s) == Tok(Prop(key, v))
    ensures 12 + Align4(|v|) <= |s|
    ensures Ld32(s, 0) == FDT_PROP && Ld32(s, 4) == |v| && Ld32(s, 8) == key && s[12..12 + |v|] == v
  {
    hide FindNul;
  }

  datatype Str = Str(s: seq<byte>) | Err(code: int)

  /** fdt_get_string on a finished blob. */
  function GetString(h: Header, b: seq<byte>, stroffset: int): (r: Str)
    requires h.magic == FDT_MAGIC && |b| == h.totalsize < TWO31
  {
    var abs := U32(stroffset + h.offStrings);
    if abs >= h.totalsize || stroffset < 0 then Err(-ERR_BADOFFSET) else
    if h.version >= 17 && stroffset >= h.sizeStrings then Err(-ERR_BADOFFSET) else
    var all: int := h.totalsize - abs;
    var len := if h.version >= 17 && h.sizeStrings - stroffset < all then h.sizeStrings - stroffset else all;
    var nul := FindNul(b[..abs + len], abs);
    if nul == abs + len then Err(-ERR_TRUNCATED) else Str(b[abs..nul])
  }

  /** On a well laid out blob that is the name in the strings block. */
  lemma GetStringAt(h: Header, b: seq<byte>, off: int, name: seq<byte>)
    requires h.magic == FDT_MAGIC && h.version == 17 && |b| == h.totalsize < TWO31
    requires h.offStrings + h.sizeStrings <= h.totalsize
    requires StringAt(StringsBlock(h, b), off) == Some(name)
    ensures GetString(h, b, off) == Str(name)
  {
    hide StringAt, FindNul;
    StringAtParts(StringsBlock(h, b), off, name);
    var abs, lim := off + h.offStrings, h.offStrings + h.sizeStrings;
    assert U32(abs) == abs;
    hide U32;
    SliceSlice(b, h.offStrings, lim, off, off + |name|);
    SliceSlice(b, 0, lim, abs, abs + |name|);
    assert b[..lim][abs + |name|] == b[h.offStrings..lim][off + |name|];
    FindNulUnique(b[..lim], abs, abs + |name|);
  }

  /** All outcomes on such a blob: BADOFFSET (4) exactly for offsets outside the strings
      block, TRUNCATED (8) exactly where no terminator follows in it, and otherwise
      the name. */
  lemma GetStringIff(h: Header, b: seq<byte>, off: int)
    requires h.magic == FDT_MAGIC && h.version == 17 && |b| == h.totalsize < TWO31 && -TWO31 <= off < TWO31
    requires h.offStrings + h.sizeStrings <= h.totalsize
    ensures GetString(h, b, off) ==
            if off < 0 || off >= h.sizeStrings then Err(-4)
            else if 0 !in StringsBlock(h, b)[off..] then Err(-8)
            else Str(StringAt(StringsBlock(h, b), off).value)
  {
    var strs := StringsBlock(h, b);
    if 0 <= off < h.sizeStrings {
      hide GetString;
      var f := FindNul(strs, off);
      assert strs[off..] == strs[off..|strs|];
      if f < |strs| {
        assert strs[off..][f - off] == 0;
        GetStringAt(h, b, off, strs[off..f]);
      } else {
        NoTerminator(h, b, off);
      }
    } else if off >= 0 {
      assert U32(off + h.offStrings) == off + h.offStrings;
    }
  }

  lemma NoTerminator(h: Header, b: seq<byte>, off: nat)
    requires h.magic == FDT_MAGIC && h.version == 17 && |b| == h.totalsize < TWO31 && off < h.sizeStrings
    requires h.offStrings + h.sizeStrings <= h.totalsize && 0 !in StringsBlock(h, b)[off..]
    ensures GetString(h, b, off) == Err(-8)
  {
    var abs, lim := off + h.offStrings, h.offStrings + h.sizeStrings;
    assert U32(abs) == abs;
    hide U32, FindNul;
    assert forall q :: abs <= q < lim ==> b[..lim][q] == StringsBlock(h, b)[off..][q - abs];
  }

  /** The bytes at a structure offset up to the terminator: what fdt_get_name points at. */
  function NameBytes(h: Header, b: seq<byte>, o: nat): (s: seq<byte>)
    requires |b| == h.totalsize && h.offStruct + o + 4 <= h.totalsize
  {
    b[h.offStruct + o + 4..FindNul(b, h.offStruct + o + 4)]
  }

  /** The property at a structure offset: value length, name offset, value. */
  predicate ReadsProp(h: Header, b: seq<byte>, o: nat, name: seq<byte>, v: seq<byte>)
    requires h.magic == FDT_MAGIC && |b| == h.totalsize < TWO31
  {
    && h.offStruct + o + 12 + |v| <= |b|
    && Ld32(b, h.offStruct + o + 4) == |v|
    && b[h.offStruct + o + 12..h.offStruct + o + 12 + |v|] == v
    && GetString(h, b, Int32(Ld32(b, h.offStruct + o + 8))) == Str(name)
  }

  /** Reading back: stepping fdt_next_tag from offset 0 over a finished blob
      visits exactly the tokens it was written with, names and values included. */
  lemma ReadBack(h: Header, b: seq<byte>, cs: seq<Call>, k: nat)
    requires Complete(h, b, cs) && k < |cs|
    ensures h.Sane() && Offset(Parse(StructBlock(h, b)).value, 0) == 0
    ensures var ts := Parse(StructBlock(h, b)).value;
            var o := Offset(ts, k);
            && |ts| == |cs|
            && o + 4 <= h.sizeStruct
            && NextTag(h, b, o) == (cs[k].Tag(), Offset(ts, k + 1))
            && (cs[k].BeginNode? ==> NameBytes(h, b, o) == cs[k].name)
            && (cs[k].Prop? ==> ReadsProp(h, b, o, cs[k].key, cs[k].value))
  {
    hide Parse;
    hide NextTag;
    var ts := Parse(StructBlock(h, b)).value;
    var s := StructBlock(h, b);
    var o := Offset(ts, k);
    NextTagAt(h, b, ts, k);
    ParseAt(s, ts, k);
    assert Means(ts[k], cs[k], StringsBlock(h, b), 0);
    if cs[k].BeginNode? {
      ReadName(h, b, o, cs[k].name);
    } else if cs[k].Prop? {
      ReadValue(h, b, o, ts[k].key, cs[k].key, cs[k].value);
    }
  }

  lemma ReadName(h: Header, b: seq<byte>, o: nat, name: seq<byte>)
    requires |b| == h.totalsize && h.offStruct + h.sizeStruct <= h.totalsize && o <= h.sizeStruct
    requires HeadToken(StructBlock(h, b)[o..]) == Tok(BeginNode(name))
    ensures o + 4 <= h.sizeStruct && NameBytes(h, b, o) == name
  {
    hide Align4, HeadToken, FindNul;
    var at, end := h.offStruct + o, h.offStruct + h.sizeStruct;
    var s := b[h.offStruct..end][o..];
    HeadName(s, name);
    TailSlice(b, h.offStruct, end, o, 4, 4 + |name|);
    assert b[at + 4 + |name|] == s[4 + |name|];
    FindNulUnique(b, at + 4, at + 4 + |name|);
  }

  lemma ReadValue(h: Header, b: seq<byte>, o: nat, key: u32, name: seq<byte>, v: seq<byte>)
    requires h.magic == FDT_MAGIC && h.version == 17 && |b| == h.totalsize < TWO31
    requires h.offStruct + h.sizeStruct <= h.totalsize && o <= h.sizeStruct
    requires h.offStrings + h.sizeStrings <= h.totalsize
    requires HeadToken(StructBlock(h, b)[o..]) == Tok(Prop(key, v))
    requires StringAt(StringsBlock(h, b), Int32(key)) == Some(name)
    ensures ReadsProp(h, b, o, name, v)
  {
    hide HeadToken, Ld32, StringAt, GetString, Int32, Align4;
    var end := h.offStruct + h.sizeStruct;
    PropHead(b[h.offStruct..end][o..], key, v);
    TailLd32(b, h.offStruct, end, o, 4);
    TailLd32(b, h.offStruct, end, o, 8);
    TailSlice(b, h.offStruct, end, o, 12, 12 + |v|);
    GetStringAt(h, b, Int32(key), name);
  }
}
