/** The sequential writer: tokens grow up from the reserve map, property names
    grow down from the end of the buffer and are counted back from it, until
    fdt_finish moves them next to the structure and renumbers every property. */
module SeqWriter {
  import opened Bytes
  import opened Tokens
  import opened Blob
  import opened StringTable

  /** The names collected so far, at the end of the buffer. */
  function TailStrings(h: Header, b: seq<byte>): (s: seq<byte>)
    requires |b| == h.totalsize && h.sizeStrings <= h.totalsize
    ensures |s| == h.sizeStrings
  {
    b[h.totalsize - h.sizeStrings..]
  }

  /** The two growing areas do not meet. */
  predicate Layout(h: Header) {
    && h.version == 17
    && h.totalsize < TWO31
    && HEADER_SIZE <= h.offRsvmap <= h.offStruct
    && h.offStruct + h.sizeStruct + h.sizeStrings <= h.totalsize
  }

  /** The 'struct' state of fdt_sw.c. */
  predicate StructState(h: Header) {
    h.magic == FDT_SW_MAGIC && h.offStrings == h.totalsize
  }

  /** The unfinished buffer holds exactly these calls. */
  predicate Holds(h: Header, b: seq<byte>, cs: seq<Call>) {
    && Layout(h)
    && |b| == h.totalsize
    && Denotes(StructBlock(h, b), cs, TailStrings(h, b), h.sizeStrings)
  }

  ghost predicate Writing(f: Fdt, cs: seq<Call>)
    reads f, f.mem
  {
    f.Mapped() && StructState(f.hdr) && Holds(f.hdr, f.Buf(), cs)
  }

  /** fdt_sw_probe_ and fdt_sw_probe_struct_. */
  function Probe(h: Header): (r: int) {
    if h.magic == FDT_MAGIC then -ERR_BADSTATE
    else if h.magic != FDT_SW_MAGIC then -ERR_BADMAGIC else 0
  }

  function ProbeStruct(h: Header): (r: int)
    ensures r == 0 <==> StructState(h)
  {
    if Probe(h) != 0 then Probe(h)
    else if h.offStrings != h.totalsize then -ERR_BADSTATE else 0
  }

  // ---- fdt_create_with_flags and the reserve map

  const FIRST_OFFSET := 48

  method Create(mem: array<byte>, base: nat, bufsize: nat, flags: u32) returns (err: int, f: Fdt?)
    requires base + bufsize <= mem.Length && bufsize < TWO31
    modifies mem
    ensures err == if bufsize < 48 then -3 else if flags > 1 then -18 else 0
    ensures err == 0 <==> f != null
    ensures f != null ==> fresh(f) && f.mem == mem && f.base == base && f.Mapped() && Layout(f.hdr)
    ensures f != null ==>
      f.hdr == Header(FDT_SW_MAGIC, bufsize, FIRST_OFFSET, 0, FIRST_OFFSET, LAST_SUPPORTED_VERSION, flags, 0, 0)
  {
    f := null;
    if bufsize < FIRST_OFFSET {
      return -ERR_NOSPACE, f;
    }
    if flags > 1 {
      return -ERR_BADFLAGS, f;
    }
    forall i | base <= i < base + bufsize {
      mem[i] := 0;
    }
    f := new Fdt(mem, base,
                 Header(FDT_SW_MAGIC, bufsize, FIRST_OFFSET, 0, FIRST_OFFSET, LAST_SUPPORTED_VERSION, flags, 0, 0));
    err := 0;
  }

  /** The reserve entries written so far. */
  function RsvBlock(h: Header, b: seq<byte>): (s: seq<byte>)
    requires |b| == h.totalsize && h.offRsvmap <= h.offStruct <= h.totalsize
  {
    b[h.offRsvmap..h.offStruct]
  }

  /** The reserve entries are where they were, and what they were. */
  predicate RsvKept(h: Header, b: seq<byte>, h': Header, b': seq<byte>) {
    && h'.offRsvmap == h.offRsvmap <= h.offStruct == h'.offStruct
    && h.offStruct <= |b| && h.offStruct <= |b'| && b'[..h.offStruct] == b[..h.offStruct]
  }

  lemma RsvKeptTrans(h: Header, b: seq<byte>, h': Header, b': seq<byte>, h'': Header, b'': seq<byte>)
    requires RsvKept(h, b, h', b') && RsvKept(h', b', h'', b'')
    ensures RsvKept(h, b, h'', b'')
  {
  }

  lemma RsvKeptBlock(h: Header, b: seq<byte>, h': Header, b': seq<byte>)
    requires RsvKept(h, b, h', b') && |b| == h.totalsize && |b'| == h'.totalsize
    ensures h.offStruct <= h.totalsize && h'.offStruct <= h'.totalsize && RsvBlock(h', b') == RsvBlock(h, b)
  {
    PrefixSlice(b, b', h.offStruct, h.offRsvmap, h.offStruct);
  }

  /** fdt_add_reservemap_entry; an entry is two big-endian doublewords. */
  method AddReserve(f: Fdt, entry: seq<byte>) returns (err: int)
    requires |entry| == 16
    requires f.Mapped() && Layout(f.hdr)
    requires f.hdr.magic == FDT_SW_MAGIC && f.hdr.offStrings == 0 ==> f.hdr.sizeStruct == f.hdr.sizeStrings == 0
    modifies f`hdr, f.mem
    ensures Confined(f) && f.Mapped() && Layout(f.hdr)
    ensures err == if Probe(old(f.hdr)) != 0 then Probe(old(f.hdr))
                   else if old(f.hdr).offStrings != 0 then -ERR_BADSTATE
                   else if old(f.hdr).offStruct + 16 > old(f.hdr).totalsize then -ERR_NOSPACE else 0
    ensures err != 0 ==> f.hdr == old(f.hdr) && f.Buf() == old(f.Buf())
    ensures err == 0 ==> f.hdr == old(f.hdr).(offStruct := old(f.hdr).offStruct + 16)
    ensures err == 0 ==> RsvBlock(f.hdr, f.Buf()) == RsvBlock(old(f.hdr), old(f.Buf())) + entry
  {
    err := Probe(f.hdr);
    if err != 0 {
      return;
    }
    if f.hdr.offStrings != 0 {
      return -ERR_BADSTATE;
    }
    var offset := f.hdr.offStruct;
    if offset + 16 > f.hdr.totalsize {
      return -ERR_NOSPACE;
    }
    Store(f, offset, entry);
    f.hdr := f.hdr.(offStruct := offset + 16);
    ghost var b := old(f.Buf());
    assert f.Buf() == Patch(b, offset, entry);
  }

  /** fdt_finish_reservemap: an all-zero entry, then the 'struct' state. */
  method FinishReserve(f: Fdt) returns (err: int)
    requires f.Mapped() && Layout(f.hdr)
    requires f.hdr.magic == FDT_SW_MAGIC && f.hdr.offStrings == 0 ==> f.hdr.sizeStruct == f.hdr.sizeStrings == 0
    modifies f`hdr, f.mem
    ensures Confined(f) && f.Mapped()
    ensures err == if Probe(old(f.hdr)) != 0 then Probe(old(f.hdr))
                   else if old(f.hdr).offStrings != 0 then -ERR_BADSTATE
                   else if old(f.hdr).offStruct + 16 > old(f.hdr).totalsize then -ERR_NOSPACE else 0
    ensures err == 0 ==> Writing(f, [])
    ensures err == 0 ==>
      f.hdr == old(f.hdr).(offStruct := old(f.hdr).offStruct + 16, offStrings := old(f.hdr).totalsize)
    ensures err == 0 ==> RsvBlock(f.hdr, f.Buf()) == RsvBlock(old(f.hdr), old(f.Buf())) + seq(16, _ => 0)
    ensures err != 0 ==> f.hdr == old(f.hdr) && f.Buf() == old(f.Buf())
  {
    err := AddReserve(f, seq(16, _ => 0));
    if err != 0 {
      return;
    }
    f.hdr := f.hdr.(offStrings := f.hdr.totalsize);
    assert StructBlock(f.hdr, f.Buf()) == [];
  }

  // ---- fdt_grab_space_ and the structure calls

  /** fdt_grab_space_: room for `len` more structure bytes, or none. */
  method GrabSpace(f: Fdt, len: nat) returns (r: Option<nat>)
    requires Layout(f.hdr)
    modifies f`hdr
    ensures var h := old(f.hdr);
            if h.offStruct + h.sizeStruct + len + h.sizeStrings <= h.totalsize
            then r == Some(h.sizeStruct) && f.hdr == h.(sizeStruct := h.sizeStruct + len)
            else r == None && f.hdr == h
  {
    var offset := f.hdr.sizeStruct;
    var spaceleft := f.hdr.totalsize - f.hdr.offStruct - f.hdr.sizeStrings;
    if offset + len > spaceleft {
      return None;
    }
    f.hdr := f.hdr.(sizeStruct := offset + len);
    return Some(offset);
  }

  /** Writing a token into grabbed space appends it. */
  lemma GrownBy(h: Header, b: seq<byte>, cs: seq<Call>, h': Header, b': seq<byte>, t: RawToken, c: Call)
    requires Holds(h, b, cs) && |b'| == |b|
    requires h' == h.(sizeStruct := h'.sizeStruct) && h'.sizeStruct == h.sizeStruct + t.Size() && Layout(h')
    requires SameAround(b, b', h.offStruct + h.sizeStruct, t.Size())
    requires Parse(b'[h.offStruct + h.sizeStruct..h.offStruct + h'.sizeStruct]) == Some([t])
    requires Means(t, c, TailStrings(h, b), h.sizeStrings)
    ensures Holds(h', b', cs + [c])
    ensures TailStrings(h', b') == TailStrings(h, b)
    ensures b'[..h.offStruct] == b[..h.offStruct]
  {
    hide Parse;
    hide Means;
    var at, end := h.offStruct + h.sizeStruct, h.offStruct + h'.sizeStruct;
    var piece := b'[at..end];
    assert b'[..h.offStruct] == b'[..at][..h.offStruct] == b[..at][..h.offStruct] == b[..h.offStruct];
    SliceSlice(b, 0, at, h.offStruct, at);
    SliceSlice(b', 0, at, h.offStruct, at);
    assert StructBlock(h', b') == StructBlock(h, b) + piece;
    var n := h.totalsize - h.sizeStrings;
    SliceSlice(b, end, |b|, n - end, |b| - end);
    SliceSlice(b', end, |b|, n - end, |b| - end);
    assert TailStrings(h', b') == TailStrings(h, b);
    DenotesAppend(StructBlock(h, b), cs, TailStrings(h, b), h.sizeStrings, piece, t, c);
  }

  /** fdt_begin_node */
  method BeginNodeCall(f: Fdt, name: CStr, ghost cs: seq<Call>) returns (err: int)
    requires f.Mapped() && (StructState(f.hdr) ==> Holds(f.hdr, f.Buf(), cs))
    modifies f`hdr, f.mem
    ensures Confined(f) && f.Mapped()
    ensures err == if ProbeStruct(old(f.hdr)) != 0 then ProbeStruct(old(f.hdr))
                   else if Fits(old(f.hdr), 4 + Align4(|name| + 1)) then 0 else -ERR_NOSPACE
    ensures err != 0 ==> f.hdr == old(f.hdr) && f.Buf() == old(f.Buf())
    ensures err == 0 ==> Writing(f, cs + [BeginNode(name)])
    ensures err == 0 ==> SameOutside(old(f.hdr), old(f.Buf()), f.hdr, f.Buf())
  {
    hide Parse;
    hide Denotes;
    hide Align4;
    hide StringAt;
    err := ProbeStruct(f.hdr);
    if err != 0 {
      return;
    }
    ghost var h, b := f.hdr, f.Buf();
    var r := GrabSpace(f, 4 + Align4(|name| + 1));
    if r.None? {
      return -ERR_NOSPACE;
    }
    assert f.Buf() == b;
    PutBegin(f, f.hdr.offStruct + r.value, name);
    GrownBy(h, b, cs, f.hdr, f.Buf(), BeginNode(name), BeginNode(name));
  }

  predicate Fits(h: Header, len: nat) {
    h.offStruct + h.sizeStruct + len + h.sizeStrings <= h.totalsize
  }

  /** A structure call leaves the reserve map, and the fields that it does not
      own, as they were. */
  predicate SameOutside(h: Header, b: seq<byte>, h': Header, b': seq<byte>) {
    && h' == h.(sizeStruct := h'.sizeStruct, sizeStrings := h'.sizeStrings)
    && |b| == |b'| && h.offStruct <= |b|
    && b[..h.offStruct] == b'[..h.offStruct]
  }

  /** fdt_end_node */
  method EndNodeCall(f: Fdt, ghost cs: seq<Call>) returns (err: int)
    requires f.Mapped() && (StructState(f.hdr) ==> Holds(f.hdr, f.Buf(), cs))
    modifies f`hdr, f.mem
    ensures Confined(f) && f.Mapped()
    ensures err == if ProbeStruct(old(f.hdr)) != 0 then ProbeStruct(old(f.hdr))
                   else if Fits(old(f.hdr), 4) then 0 else -ERR_NOSPACE
    ensures err != 0 ==> f.hdr == old(f.hdr) && f.Buf() == old(f.Buf())
    ensures err == 0 ==> Writing(f, cs + [EndNode])
    ensures err == 0 ==> SameOutside(old(f.hdr), old(f.Buf()), f.hdr, f.Buf())
  {
    hide Parse;
    hide Denotes;
    hide Align4;
    hide StringAt;
    err := ProbeStruct(f.hdr);
    if err != 0 {
      return;
    }
    ghost var h, b := f.hdr, f.Buf();
    var r := GrabSpace(f, 4);
    if r.None? {
      return -ERR_NOSPACE;
    }
    assert f.Buf() == b;
    PutWord(f, f.hdr.offStruct + r.value, EndNode);
    GrownBy(h, b, cs, f.hdr, f.Buf(), EndNode, EndNode);
  }

  // ---- property names

  /** The room test of fdt_add_string_, in its unsigned arithmetic. */
  predicate NoRoom(h: Header, len: nat) {
    U32(h.totalsize - h.sizeStrings - len) < h.offStruct + h.sizeStruct
  }

  /** Names plus the new one are no longer than the buffer. */
  predicate NameFits(h: Header, len: nat) {
    h.sizeStrings + len <= h.totalsize
  }

  /** The unsigned test answers the question it is meant to answer exactly when
      the name could fit into an empty buffer: for a longer name the difference
      wraps around and the test reports room that is not there. */
  lemma RoomTestExact(h: Header, len: nat)
    requires Layout(h) && 0 < len < TWO31
    ensures (NoRoom(h, len) <==> h.totalsize - h.sizeStrings - len < h.offStruct + h.sizeStruct)
            <==> NameFits(h, len)
  {
    var d := h.totalsize - h.sizeStrings - len;
    if d >= 0 {
      assert U32(d) == d;
    } else {
      assert U32(d) == d + TWO32;
    }
  }

  /** The header of a buffer of 64 bytes whose reserve map is finished. */
  const FULL := Header(FDT_SW_MAGIC, 64, 64, 64, FIRST_OFFSET, LAST_SUPPORTED_VERSION, 0, 0, 0)

  /** There is no room in it for anything, and the test lets every name in that is
      longer than 63 bytes. */
  lemma RoomTestWraps(len: nat)
    requires 64 < len < TWO31
    ensures Layout(FULL) && StructState(FULL) && !NoRoom(FULL, len) && !Fits(FULL, len)
  {
    assert U32(64 - len) == TWO32 + 64 - len;
  }

  /** The calls that lead there. */
  method FullBuffer(mem: array<byte>) returns (f: Fdt)
    requires mem.Length >= 64
    modifies mem
    ensures fresh(f) && f.mem == mem && f.Mapped() && f.hdr == FULL && Writing(f, [])
  {
    var err, g := Create(mem, 0, 64, 0);
    f := g;
    err := FinishReserve(f);
  }

  /** The strings area has grown downwards by this name and nothing else moved. */
  predicate NameAdded(h: Header, b: seq<byte>, h': Header, b': seq<byte>, s: seq<byte>) {
    && Layout(h) && Layout(h') && |b| == h.totalsize == |b'|
    && h'.sizeStrings == h.sizeStrings + |s| + 1 && h' == h.(sizeStrings := h'.sizeStrings)
    && TailStrings(h', b') == (s + [0]) + TailStrings(h, b)
    && SameAround(b, b', h.totalsize - h'.sizeStrings, |s| + 1)
  }

  lemma PatchAddsName(h: Header, b: seq<byte>, h': Header, s: seq<byte>)
    requires Layout(h) && Layout(h') && |b| == h.totalsize
    requires h'.sizeStrings == h.sizeStrings + |s| + 1 && h' == h.(sizeStrings := h'.sizeStrings)
    ensures NameAdded(h, b, h', Patch(b, h.totalsize - h'.sizeStrings, s + [0]), s)
  {
    hide Patch;
    var at := h.totalsize - h'.sizeStrings;
    PatchAround(b, at, s + [0], at, |s| + 1);
    PatchTail(b, at, s + [0]);
    hide SameAround;
  }

  lemma PatchTail(b: seq<byte>, at: nat, t: seq<byte>)
    requires at + |t| <= |b|
    ensures Patch(b, at, t)[at..] == t + b[at + |t|..]
  {
  }

  /** fdt_add_string_: 0 when there is no room, else a negative offset. */
  method AddString(f: Fdt, s: CStr) returns (off: int)
    requires f.Mapped() && Layout(f.hdr) && NameFits(f.hdr, |s| + 1)
    modifies f`hdr, f.mem
    ensures Confined(f) && f.Mapped()
    ensures off == 0 <==> !Fits(old(f.hdr), |s| + 1)
    ensures off == 0 ==> f.hdr == old(f.hdr) && f.Buf() == old(f.Buf())
    ensures off != 0 ==> off + f.hdr.sizeStrings == 0 && NameAdded(old(f.hdr), old(f.Buf()), f.hdr, f.Buf(), s)
  {
    hide NoRoom;
    hide Patch;
    hide NameAdded;
    var strtabsize := f.hdr.sizeStrings;
    var len := |s| + 1;
    off := 0 - strtabsize - len;
    RoomTestExact(f.hdr, len);
    if NoRoom(f.hdr, len) {
      return 0;
    }
    Store(f, f.hdr.totalsize + off, s + [0]);
    ghost var b := f.Buf();
    f.hdr := f.hdr.(sizeStrings := strtabsize + len);
    assert f.Buf() == b;
    PatchAddsName(old(f.hdr), old(f.Buf()), f.hdr, s);
  }

  /** fdt_find_add_string_: reuse a name that is there, else add it. */
  method FindAddString(f: Fdt, s: CStr) returns (off: int, added: bool)
    requires f.Mapped() && Layout(f.hdr)
    requires NameFits(f.hdr, |s| + 1) || HasName(TailStrings(f.hdr, f.Buf()), s)
    modifies f`hdr, f.mem
    ensures Confined(f) && f.Mapped()
    ensures added <==> !HasName(old(TailStrings(f.hdr, f.Buf())), s)
    ensures !added ==> f.hdr == old(f.hdr) && f.Buf() == old(f.Buf())
    ensures !added ==> 0 <= off + f.hdr.sizeStrings < f.hdr.sizeStrings
    ensures !added ==> StringAt(TailStrings(f.hdr, f.Buf()), off + f.hdr.sizeStrings) == Some(s)
    ensures added ==> (off == 0 <==> !Fits(old(f.hdr), |s| + 1))
    ensures added && off == 0 ==> f.hdr == old(f.hdr) && f.Buf() == old(f.Buf())
    ensures added && off != 0 ==> off + f.hdr.sizeStrings == 0 && NameAdded(old(f.hdr), old(f.Buf()), f.hdr, f.Buf(), s)
  {
    hide NameAdded;
    hide StringAt;
    var tab := TailStrings(f.hdr, f.Buf());
    added := false;
    var p := FindString(tab, s);
    if p.Some? {
      StringAtIs(tab, p.value, s);
      return p.value - |tab|, false;
    }
    added := true;
    off := AddString(f, s);
  }

  /** A new name below the old ones moves no property to another name. */
  lemma AddedHolds(h: Header, b: seq<byte>, cs: seq<Call>, h': Header, b': seq<byte>, s: CStr)
    requires Holds(h, b, cs) && NameAdded(h, b, h', b', s)
    ensures Holds(h', b', cs) && Holds(h, b', cs)
    ensures h'.sizeStrings == h.sizeStrings + |s| + 1 && h' == h.(sizeStrings := h'.sizeStrings)
    ensures StringAt(TailStrings(h', b'), 0) == Some(s)
    ensures b'[..h.offStruct] == b[..h.offStruct]
  {
    hide Denotes;
    hide StringAt;
    var at := h.totalsize - h'.sizeStrings;
    SliceSlice(b, 0, at, h.offStruct, h.offStruct + h.sizeStruct);
    SliceSlice(b', 0, at, h.offStruct, h.offStruct + h.sizeStruct);
    assert b'[..h.offStruct] == b'[..at][..h.offStruct] == b[..at][..h.offStruct] == b[..h.offStruct];
    assert StructBlock(h', b') == StructBlock(h, b);
    DenotesGrow(StructBlock(h, b), cs, s + [0], TailStrings(h, b), [], h.sizeStrings);
    assert (s + [0]) + TailStrings(h, b) + [] == TailStrings(h', b');
    assert TailStrings(h', b')[0..|s| + 1] == s + [0];
    StringAtIs(TailStrings(h', b'), 0, s);
    assert TailStrings(h, b') == TailStrings(h, b) by {
      assert TailStrings(h', b')[|s| + 1..] == TailStrings(h, b);
      SliceSlice(b', at, |b'|, |s| + 1, |b'| - at);
    }
  }

  /** What fdt_property needs of its name: that the room test is not fooled. */
  predicate NameOk(h: Header, b: seq<byte>, name: seq<byte>)
    requires |b| == h.totalsize && h.sizeStrings <= h.totalsize
  {
    || NameFits(h, |name| + 1)
    || (h.lastCompVersion % 2 == 0 && HasName(TailStrings(h, b), name))
  }

  /** How many bytes the name of a property takes: none when it is found. */
  function NameCost(h: Header, b: seq<byte>, name: seq<byte>): nat
    requires |b| == h.totalsize && h.sizeStrings <= h.totalsize
  {
    if h.lastCompVersion % 2 == 0 && HasName(TailStrings(h, b), name) then 0 else |name| + 1
  }

  /** The naming half of fdt_property_placeholder. */
  method NameFor(f: Fdt, name: CStr, ghost cs: seq<Call>) returns (nameoff: int, added: bool)
    requires f.Mapped() && Holds(f.hdr, f.Buf(), cs) && NameOk(f.hdr, f.Buf(), name)
    modifies f`hdr, f.mem
    ensures Confined(f) && f.Mapped() && Holds(f.hdr, f.Buf(), cs)
    ensures (if added then |name| + 1 else 0) == NameCost(old(f.hdr), old(f.Buf()), name)
    ensures nameoff == 0 ==> added && f.hdr == old(f.hdr) && !Fits(f.hdr, |name| + 1)
    ensures f.hdr ==
              old(f.hdr).(sizeStrings := old(f.hdr).sizeStrings + if added && nameoff != 0 then |name| + 1 else 0)
    ensures nameoff != 0 ==> 0 <= nameoff + f.hdr.sizeStrings < f.hdr.sizeStrings
    ensures nameoff != 0 ==> StringAt(TailStrings(f.hdr, f.Buf()), nameoff + f.hdr.sizeStrings) == Some(name)
    ensures f.Buf()[..f.hdr.offStruct] == old(f.Buf()[..f.hdr.offStruct])
    ensures Holds(old(f.hdr), f.Buf(), cs)
  {
    hide Denotes;
    hide StringAt;
    hide HasName;
    hide NameAdded;
    hide SameAround;
    ghost var h, b := f.hdr, f.Buf();
    if f.hdr.lastCompVersion % 2 == 1 {
      added := true;
      nameoff := AddString(f, name);
    } else {
      nameoff, added := FindAddString(f, name);
    }
    if added && nameoff != 0 {
      AddedHolds(h, b, cs, f.hdr, f.Buf(), name);
    }
  }

  lemma KeyRoundTrip(off: int)
    requires -TWO31 <= off < TWO31
    ensures Int32(U32(off)) == off
  {
    if off < 0 {
      assert U32(off) == off + TWO32;
    }
  }

  /** The other half: space for the property, its words and its value. */
  method PlaceProp(f: Fdt, nameoff: int, name: CStr, val: seq<byte>, ghost cs: seq<Call>) returns (ok: bool)
    requires |val| < TWO31 && f.Mapped() && Holds(f.hdr, f.Buf(), cs)
    requires 0 <= nameoff + f.hdr.sizeStrings < f.hdr.sizeStrings
    requires StringAt(TailStrings(f.hdr, f.Buf()), nameoff + f.hdr.sizeStrings) == Some(name)
    modifies f`hdr, f.mem
    ensures Confined(f) && f.Mapped()
    ensures ok == Fits(old(f.hdr), 12 + Align4(|val|))
    ensures !ok ==> f.hdr == old(f.hdr) && f.Buf() == old(f.Buf())
    ensures ok ==> f.hdr == old(f.hdr).(sizeStruct := f.hdr.sizeStruct) && Holds(f.hdr, f.Buf(), cs + [Prop(name, val)])
    ensures ok ==> f.Buf()[..f.hdr.offStruct] == old(f.Buf()[..f.hdr.offStruct])
  {
    hide Parse;
    hide Denotes;
    hide Align4;
    hide StringAt;
    ghost var h, b := f.hdr, f.Buf();
    var r := GrabSpace(f, 12 + Align4(|val|));
    if r.None? {
      return false;
    }
    assert f.Buf() == b;
    PutProp(f, f.hdr.offStruct + r.value, U32(nameoff), val);
    KeyRoundTrip(nameoff);
    hide U32;
    hide Int32;
    GrownBy(h, b, cs, f.hdr, f.Buf(), Prop(U32(nameoff), val), Prop(name, val));
    return true;
  }

  /** fdt_property: either the call is recorded with its name and value, or it
      fails and nothing that counts has changed, names included. */
  method PropertyCall(f: Fdt, name: CStr, val: seq<byte>, ghost cs: seq<Call>) returns (err: int)
    requires |val| < TWO31 && f.Mapped()
    requires StructState(f.hdr) ==> Holds(f.hdr, f.Buf(), cs) && NameOk(f.hdr, f.Buf(), name)
    modifies f`hdr, f.mem
    ensures Confined(f) && f.Mapped()
    ensures !StructState(old(f.hdr)) ==> err == ProbeStruct(old(f.hdr)) && f.Buf() == old(f.Buf())
    ensures StructState(old(f.hdr)) ==>
              err == if Fits(old(f.hdr), NameCost(old(f.hdr), old(f.Buf()), name) + 12 + Align4(|val|))
                     then 0 else -ERR_NOSPACE
    ensures err != 0 ==> f.hdr == old(f.hdr)
    ensures err == -ERR_NOSPACE ==> Writing(f, cs)
    ensures err == 0 ==> Writing(f, cs + [Prop(name, val)])
    ensures StructState(old(f.hdr)) ==> SameOutside(old(f.hdr), old(f.Buf()), f.hdr, f.Buf())
  {
    hide Parse;
    hide Denotes;
    hide Align4;
    hide StringAt;
    err := ProbeStruct(f.hdr);
    if err != 0 {
      return;
    }
    ghost var h0 := f.hdr;
    var nameoff, added := NameFor(f, name, cs);
    if nameoff == 0 {
      return -ERR_NOSPACE;
    }
    var ok := PlaceProp(f, nameoff, name, val, cs);
    if !ok {
      ghost var b := f.Buf();
      if added {
        f.hdr := f.hdr.(sizeStrings := f.hdr.sizeStrings - (|name| + 1));
      }
      assert f.Buf() == b;
      return -ERR_NOSPACE;
    }
  }

  // ---- fdt_resize

  /** memmove between two places of memory, which may overlap. */
  method MoveMem(mem: array<byte>, dst: nat, src: nat, n: nat)
    requires dst + n <= mem.Length && src + n <= mem.Length
    modifies mem
    ensures mem[..] == Patch(old(mem[..]), dst, old(mem[..])[src..src + n])
  {
    forall i | 0 <= i < n {
      mem[dst + i] := mem[src + i];
    }
    ghost var want := Patch(old(mem[..]), dst, old(mem[..])[src..src + n]);
    forall i | 0 <= i < mem.Length
      ensures mem[..][i] == want[i]
    {
      PatchIndex(old(mem[..]), dst, old(mem[..])[src..src + n], i);
      if dst <= i < dst + n {
        assert mem[dst + (i - dst)] == old(mem[src + (i - dst)]);
      }
    }
  }

  /** Two moves, each of which leaves alone what the other one needs. */
  lemma TwoMoves(m: seq<byte>, a: nat, a': nat, n: nat, c: nat, c': nat, k: nat)
    requires a + n <= |m| && a' + n <= |m| && c + k <= |m| && c' + k <= |m|
    requires a' + n <= c || c + k <= a'
    requires a' + n <= c' || c' + k <= a'
    ensures var m1 := Patch(m, a', m[a..a + n]);
            var m2 := Patch(m1, c', m1[c..c + k]);
            m2[a'..a' + n] == m[a..a + n] && m2[c'..c' + k] == m[c..c + k]
  {
    var m1 := Patch(m, a', m[a..a + n]);
    PatchHere(m, a', m[a..a + n]);
    assert m1[c..c + k] == m[c..c + k];
    var m2 := Patch(m1, c', m1[c..c + k]);
    PatchHere(m1, c', m1[c..c + k]);
    assert m2[a'..a' + n] == m1[a'..a' + n];
  }

  /** The two memmoves of fdt_resize, in the order that suits the overlap. */
  method MoveHeadAndTail(mem: array<byte>, fdt: nat, total: nat, buf: nat, bufsize: nat, head: nat, tail: nat)
    requires fdt + total <= mem.Length && buf + bufsize <= mem.Length
    requires head + tail <= total && head + tail <= bufsize
    modifies mem
    ensures mem[..][buf..buf + head] == old(mem[..])[fdt..fdt + head]
    ensures mem[..][buf + bufsize - tail..buf + bufsize] == old(mem[..])[fdt + total - tail..fdt + total]
  {
    hide Patch;
    var oldtail := fdt + total - tail;
    var newtail := buf + bufsize - tail;
    ghost var m := mem[..];
    if buf <= fdt {
      MoveMem(mem, buf, fdt, head);
      MoveMem(mem, newtail, oldtail, tail);
      TwoMoves(m, fdt, buf, head, oldtail, newtail, tail);
    } else {
      MoveMem(mem, newtail, oldtail, tail);
      MoveMem(mem, buf, fdt, head);
      TwoMoves(m, oldtail, newtail, tail, fdt, buf, head);
    }
  }

  /** fdt_resize: the blob moves to a buffer that may overlap the old one in any
      way; head and names arrive unharmed whichever of the two lies lower. */
  method Resize(f: Fdt, newBase: nat, bufsize: nat) returns (err: int)
    requires f.Mapped() && f.hdr.totalsize < TWO31
    requires newBase + bufsize <= f.mem.Length && bufsize < TWO31
    modifies f, f.mem
    ensures f.mem == old(f.mem) && f.Mapped()
    ensures var h := old(f.hdr);
            var need := h.offStruct + h.sizeStruct + h.sizeStrings;
            err == if Probe(h) != 0 then Probe(h) else if need > h.totalsize then -ERR_INTERNAL
                   else if need > bufsize then -ERR_NOSPACE else 0
    ensures err != 0 ==> f.hdr == old(f.hdr) && f.base == old(f.base) && f.mem[..] == old(f.mem[..])
    ensures err == 0 ==> f.base == newBase && Resized(old(f.hdr), old(f.Buf()), f.hdr, f.Buf(), bufsize)
  {
    hide Patch, Resized, TailStrings;
    err := Probe(f.hdr);
    if err != 0 {
      return;
    }
    var headsize := f.hdr.offStruct + f.hdr.sizeStruct;
    var tailsize := f.hdr.sizeStrings;
    if headsize + tailsize > f.hdr.totalsize {
      return -ERR_INTERNAL;
    }
    if headsize + tailsize > bufsize {
      return -ERR_NOSPACE;
    }
    MoveBlob(f, newBase, bufsize, headsize, tailsize);
  }

  /** The moves, and the header at its new place. */
  method MoveBlob(f: Fdt, newBase: nat, bufsize: nat, headsize: nat, tailsize: nat)
    requires f.Mapped() && newBase + bufsize <= f.mem.Length && bufsize < TWO31
    requires headsize == f.hdr.offStruct + f.hdr.sizeStruct && tailsize == f.hdr.sizeStrings
    requires headsize + tailsize <= f.hdr.totalsize && headsize + tailsize <= bufsize
    modifies f, f.mem
    ensures f.mem == old(f.mem) && f.Mapped() && f.base == newBase
    ensures Resized(old(f.hdr), old(f.Buf()), f.hdr, f.Buf(), bufsize)
  {
    hide Resized;
    var h, base := f.hdr, f.base;
    ghost var m, b := f.mem[..], f.Buf();
    MoveHeadAndTail(f.mem, base, h.totalsize, newBase, bufsize, headsize, tailsize);
    ghost var m' := f.mem[..];
    f.base := newBase;
    f.hdr := h.(totalsize := bufsize, offStrings := if h.offStrings != 0 then bufsize else 0);
    ResizedSlices(m, base, h.totalsize, h, m', newBase, bufsize, f.hdr, headsize, tailsize);
    assert f.mem[..] == m';
  }

  predicate Resized(h: Header, b: seq<byte>, h': Header, b': seq<byte>, size: u32) {
    && h' == h.(totalsize := size, offStrings := if h.offStrings != 0 then size else 0)
    && |b| == h.totalsize && |b'| == size
    && h.offStruct + h.sizeStruct + h.sizeStrings <= h.totalsize
    && h.offStruct + h.sizeStruct + h.sizeStrings <= size
    && b'[..h.offStruct + h.sizeStruct] == b[..h.offStruct + h.sizeStruct]
    && TailStrings(h', b') == TailStrings(h, b)
  }

  lemma ResizedSlices(m: seq<byte>, base: nat, total: nat, h: Header, m': seq<byte>, base': nat, size: nat, h': Header,
                      head: nat, tail: nat)
    requires base + h.totalsize <= |m| && base' + h'.totalsize <= |m'|
    requires head == h.offStruct + h.sizeStruct
    requires head + h.sizeStrings <= h.totalsize && head + h.sizeStrings <= h'.totalsize
    requires h' == h.(totalsize := h'.totalsize, offStrings := if h.offStrings != 0 then h'.totalsize else 0)
    requires m'[base'..base' + head] == m[base..base + head]
    requires total == h.totalsize && size == h'.totalsize && tail == h.sizeStrings
    requires m'[base' + size - tail..base' + size] == m[base + total - tail..base + total]
    ensures Resized(h, m[base..base + h.totalsize], h', m'[base'..base' + h'.totalsize], h'.totalsize)
  {
    SliceSlice(m, base, base + h.totalsize, 0, head);
    SliceSlice(m', base', base' + h'.totalsize, 0, head);
    SliceSlice(m, base, base + h.totalsize, h.totalsize - h.sizeStrings, h.totalsize);
    SliceSlice(m', base', base' + h'.totalsize, h'.totalsize - h.sizeStrings, h'.totalsize);
  }

  /** A resized buffer holds the same calls. */
  lemma ResizedHolds(h: Header, b: seq<byte>, h': Header, b': seq<byte>, size: u32, cs: seq<Call>)
    requires Holds(h, b, cs) && StructState(h) && Resized(h, b, h', b', size) && size < TWO31
    ensures Holds(h', b', cs)
  {
    hide Denotes;
    var top := h.offStruct + h.sizeStruct;
    SliceSlice(b, 0, top, h.offStruct, top);
    SliceSlice(b', 0, top, h.offStruct, top);
    assert StructBlock(h', b') == StructBlock(h, b);
  }
}
