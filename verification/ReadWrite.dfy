/** Editing a finished blob in place: fdt_setprop, fdt_delprop, fdt_del_node. */
module ReadWrite {
  import opened Bytes
  import opened Tokens
  import opened Blob
  import opened StringTable
  import opened Reader
  import opened Hedges
  import opened TreeRead
  import opened Splice
  import opened Probe

  // ---- edits inside one node, on trees

  /** The tree in which the node opened by token `k` contains `body`. */
  function EditBody(t: Hedge, k: nat, body: Hedge): Hedge
    requires IsNode(t, k)
  {
    ReplaceAt(t, k, NodeH(Flat(t)[k].name, body, Nil))
  }

  lemma SeqEdit<T>(pre: seq<T>, b: seq<T>, f1: seq<T>, f2: seq<T>, f3: seq<T>, e: seq<T>, post: seq<T>, ds: seq<T>)
    ensures var s := pre + (b + (f1 + f2 + f3) + e) + post;
            var x, y := |pre| + |b| + |f1|, |pre| + |b| + |f1| + |f2|;
            s[..x] + ds + s[y..] == pre + (b + (f1 + ds + f3) + e) + post
  {
    Regroup(pre, b, f1, f2, f3, e, post);
    Regroup(pre, b, f1, ds, f3, e, post);
    ThreeParts(pre + b + f1, f2, f3 + e + post);
  }

  lemma CutMiddle<T>(f: seq<T>, x: nat, y: nat)
    requires x <= y <= |f|
    ensures f == f[..x] + f[x..y] + f[y..]
  {
  }

  lemma Regroup<T>(pre: seq<T>, b: seq<T>, f1: seq<T>, f2: seq<T>, f3: seq<T>, e: seq<T>, post: seq<T>)
    ensures pre + (b + (f1 + f2 + f3) + e) + post == (pre + b + f1) + f2 + (f3 + e + post)
  {
    Widen(b, f1, f2, f3, e);
    Widen(pre, b + f1, f2, f3 + e, post);
    Assoc(pre, b, f1);
  }

  /** Editing the tokens of a body edits the tree there. */
  lemma BodyEdit(t: Hedge, k: nat, body: Hedge, x: nat, y: nat, ds: seq<Call>)
    requires IsNode(t, k) && x <= y <= |Flat(BodyAt(t, k))|
    requires Flat(body) == Flat(BodyAt(t, k))[..x] + ds + Flat(BodyAt(t, k))[y..]
    ensures k + 1 + y <= |Flat(t)|
    ensures Flat(EditBody(t, k, body)) + [End] == (Flat(t) + [End])[..k + 1 + x] + ds + (Flat(t) + [End])[k + 1 + y..]
  {
    hide BodyAt, ReplaceAt, Flat;
    var n := NodeH(Flat(t)[k].name, body, Nil);
    var pre, post := Focus(t, k, n);
    var f, b, e := Flat(BodyAt(t, k)), [Flat(t)[k]], [Token<seq<byte>>.EndNode];
    var s, end := Flat(t) + [End], post + [End];
    FlatSingle(Flat(t)[k].name, body);
    CutMiddle(f, x, y);
    Assoc(pre + NodeFlat(t, k), post, [End]);
    Assoc(pre + Flat(n), post, [End]);
    assert s == pre + (b + (f[..x] + f[x..y] + f[y..]) + e) + end;
    SeqEdit(pre, b, f[..x], f[x..y], f[y..], e, end, ds);
    assert Flat(n) == b + (f[..x] + ds + f[y..]) + e;
  }

  lemma FlatSingle(n: seq<byte>, body: Hedge)
    ensures Flat(NodeH(n, body, Nil)) == [BeginNode(n)] + Flat(body) + [EndNode]
  {
    var s := [BeginNode(n)] + Flat(body) + [EndNode];
    assert s + Flat(Nil) == s;
  }

  // ---- property names

  /** How many bytes the name of a property adds to the strings block. */
  function NewName(h: Header, b: seq<byte>, s: seq<byte>): nat
    requires |b| == h.totalsize && h.offStrings + h.sizeStrings <= h.totalsize
  {
    if HasName(StringsBlock(h, b), s) then 0 else |s| + 1
  }

  /** fdt_find_add_string_: an offset of the name in the strings block, which
      grows at its end if the name is new. */
  method FindAddName(f: Fdt, s: CStr, ghost cs: seq<Call>) returns (r: int, added: bool)
    requires f.Mapped() && Complete(f.hdr, f.Buf(), cs)
    modifies f`hdr, f.mem
    ensures Confined(f) && f.Mapped()
    ensures r < 0 ==> r == -ERR_NOSPACE && f.hdr == old(f.hdr) && f.Buf() == old(f.Buf())
    ensures r < 0 <==> !Room(old(f.hdr), 0, NewName(old(f.hdr), old(f.Buf()), s))
    ensures r >= 0 ==> (if added then |s| + 1 else 0) == NewName(old(f.hdr), old(f.Buf()), s)
    ensures r >= 0 ==> NameReady(old(f.hdr), old(f.Buf()), f.hdr, f.Buf(), s, r, added, cs)
  {
    hide Denotes, StringAt, NameReady;
    ghost var h, b := f.hdr, f.Buf();
    var tab := StringsBlock(f.hdr, f.Buf());
    added := false;
    var p := FindString(tab, s);
    if p.Some? {
      FoundName(h, b, s, p.value, cs);
      return p.value, false;
    }
    var end := f.hdr.offStrings + f.hdr.sizeStrings;
    r := SpliceAt(f, end, 0, |s| + 1);
    if r != 0 {
      return;
    }
    PatchNothing(b, end + |s| + 1, b[end..end]);
    assert f.Buf() == b;
    r := f.hdr.sizeStrings;
    f.hdr := f.hdr.(sizeStrings := f.hdr.sizeStrings + |s| + 1);
    assert f.Buf() == b;
    Store(f, end, s + [0]);
    AppendedName(h, b, f.hdr, s, cs);
    return r, true;
  }

  lemma PatchNothing(b: seq<byte>, at: nat, e: seq<byte>)
    requires at <= |b| && e == []
    ensures Patch(b, at, e) == b
  {
  }

  /** The name can be used, and dropping it again would also be fine. */
  predicate NameReady(h: Header, b: seq<byte>, h': Header, b': seq<byte>, s: seq<byte>, off: nat, added: bool,
                      cs: seq<Call>) {
    && Complete(h', b', cs) && Complete(h, b', cs) && |b| == |b'|
    && h'.sizeStrings == h.sizeStrings + (if added then |s| + 1 else 0) && h' == h.(sizeStrings := h'.sizeStrings)
    && off < h'.sizeStrings && StringAt(StringsBlock(h', b'), off) == Some(s)
    && b'[..h.offStrings] == b[..h.offStrings]
  }

  lemma FoundName(h: Header, b: seq<byte>, s: CStr, p: nat, cs: seq<Call>)
    requires Complete(h, b, cs) && Occurs(StringsBlock(h, b), s, p)
    ensures NameReady(h, b, h, b, s, p, false, cs)
  {
    hide Denotes, StringAt;
    StringAtIs(StringsBlock(h, b), p, s);
  }

  lemma AppendedName(h: Header, b: seq<byte>, h': Header, s: CStr, cs: seq<Call>)
    requires Complete(h, b, cs) && h' == h.(sizeStrings := h'.sizeStrings) && h'.sizeStrings == h.sizeStrings + |s| + 1
    requires h.offStrings + h'.sizeStrings <= h.totalsize
    ensures NameReady(h, b, h', Patch(b, h.offStrings + h.sizeStrings, s + [0]), s, h.sizeStrings, true, cs)
  {
    hide Denotes, StringAt;
    var end := h.offStrings + h.sizeStrings;
    var b' := Patch(b, end, s + [0]);
    PatchBefore(b, end, s + [0], end);
    PatchHere(b, end, s + [0]);
    hide Patch;
    PrefixSlice(b, b', end, 0, h.offStrings);
    PrefixSlice(b, b', end, h.offStruct, h.offStruct + h.sizeStruct);
    PrefixSlice(b, b', end, h.offStrings, end);
    var strs := StringsBlock(h, b);
    CutThree(b', h.offStrings, h.offStrings, end, end + |s| + 1);
    assert b'[h.offStrings..h.offStrings] == [];
    assert StringsBlock(h', b') == [] + strs + (s + [0]);
    DenotesGrow(StructBlock(h, b), cs, [], strs, s + [0], 0);
    ThreeParts(strs, s + [0], []);
    assert StringsBlock(h', b') == strs + (s + [0]) + [];
    StringAtIs(StringsBlock(h', b'), |strs|, s);
  }

  // ---- tokens in and out

  /** The reserve map and the part of the header that edits do not own. */
  predicate SameFrame(h: Header, b: seq<byte>, h': Header, b': seq<byte>) {
    && h' == h.(sizeStruct := h'.sizeStruct, offStrings := h'.offStrings, sizeStrings := h'.sizeStrings)
    && |b| == |b'| && h.offStruct <= |b| && b'[..h.offStruct] == b[..h.offStruct]
  }

  /** Room for `more` bytes in place of `less`. */
  predicate Room(h: Header, less: nat, more: nat) {
    h.offStrings + h.sizeStrings - less + more <= h.totalsize
  }

  /** Insert a property token before token `i`. */
  method InsertProp(f: Fdt, q: nat, key: u32, name: seq<byte>, val: seq<byte>, ghost cs: seq<Call>, ghost i: nat)
    returns (err: int)
    requires f.Mapped() && Complete(f.hdr, f.Buf(), cs) && Points(f.hdr, f.Buf(), cs, i, q)
    requires StringAt(StringsBlock(f.hdr, f.Buf()), Int32(key)) == Some(name)
    modifies f`hdr, f.mem
    ensures Confined(f) && f.Mapped()
    ensures err == if Room(old(f.hdr), 0, 12 + Align4(|val|)) then 0 else -ERR_NOSPACE
    ensures err != 0 ==> f.hdr == old(f.hdr) && f.Buf() == old(f.Buf())
    ensures err == 0 ==> Complete(f.hdr, f.Buf(), cs[..i] + [Prop(name, val)] + cs[i..])
    ensures err == 0 ==> SameFrame(old(f.hdr), old(f.Buf()), f.hdr, f.Buf())
  {
    hide Parse, Align4, StringAt, Int32, Opened, Denotes, SameAround;
    ghost var h, b := f.hdr, f.Buf();
    ghost var ts := TokensOf(h, b, cs);
    TokenInside(h, b, cs, i);
    err := SpliceStruct(f, q, 0, 12 + Align4(|val|));
    if err != 0 {
      return;
    }
    ghost var h', b' := f.hdr, f.Buf();
    OpenedSizes(h, b, h', b', q, 0, 12 + Align4(|val|));
    PutProp(f, f.hdr.offStruct + q, key, val);
    OpenedFilled(h, b, h', b', f.Buf(), q, 0, 12 + Align4(|val|));
    OneMeans(Prop(key, val), Prop(name, val), StringsBlock(h, b));
    Edited(h, b, cs, ts, i, i, h', f.Buf(), [Prop(key, val)], [Prop(name, val)], q, 0, 12 + Align4(|val|));
  }

  lemma OneMeans(t: RawToken, c: Call, strs: seq<byte>)
    requires Means(t, c, strs, 0)
    ensures AllMean([t], [c], strs, 0)
  {
  }

  lemma TokenInside(h: Header, b: seq<byte>, cs: seq<Call>, i: nat)
    requires Complete(h, b, cs) && i < |cs|
    ensures Parsed(h, b, |cs|) && Off(h, b, i) + 4 <= h.sizeStruct
  {
    hide Parse;
    var ts := Parse(StructBlock(h, b)).value;
    ParseAt(StructBlock(h, b), ts, i);
  }

  lemma OpenedSizes(h: Header, b: seq<byte>, h': Header, b': seq<byte>, q: nat, m: nat, n: nat)
    requires Opened(h, b, h', b', q, m, n)
    ensures h' == h.(sizeStruct := h'.sizeStruct, offStrings := h'.offStrings)
    ensures Laid(h') && h'.sizeStruct == h.sizeStruct - m + n && q + m <= h.sizeStruct && |b| == |b'| == h.totalsize
  {
  }

  /** The raw tokens of a complete blob. */
  function TokensOf(h: Header, b: seq<byte>, cs: seq<Call>): (ts: seq<RawToken>)
    requires Complete(h, b, cs)
    ensures Parse(StructBlock(h, b)) == Some(ts) && |ts| == |cs|
  {
    Parse(StructBlock(h, b)).value
  }

  predicate WithoutPart(s: seq<byte>, s': seq<byte>, q: nat, len: nat) {
    q + len <= |s| && s' == s[..q] + s[q + len..]
  }

  /** The header after `len` structure bytes went, and the names as they were. */
  predicate Shrunk(h: Header, b: seq<byte>, h': Header, b': seq<byte>, len: nat) {
    && Laid(h) && Laid(h') && |b| == h.totalsize == |b'| && len <= h.sizeStruct <= h.offStrings
    && h' == h.(sizeStruct := h.sizeStruct - len, offStrings := h.offStrings - len)
    && StringsBlock(h', b') == StringsBlock(h, b)
  }

  lemma OpenedShrinks(h: Header, b: seq<byte>, h': Header, b': seq<byte>, q: nat, len: nat)
    requires Opened(h, b, h', b', q, len, 0)
    ensures Shrunk(h, b, h', b', len)
  {
  }

  /** Cut out the tokens from `i` to `j`. */
  method CutTokens(f: Fdt, q: nat, len: nat, ghost cs: seq<Call>, ghost i: nat, ghost j: nat) returns (err: int)
    requires f.Mapped() && Complete(f.hdr, f.Buf(), cs) && Points(f.hdr, f.Buf(), cs, i, q)
    requires i <= j <= |cs| && Parsed(f.hdr, f.Buf(), |cs|) && q + len == Off(f.hdr, f.Buf(), j)
    modifies f`hdr, f.mem
    ensures Confined(f) && f.Mapped() && err == 0
    ensures Complete(f.hdr, f.Buf(), cs[..i] + cs[j..])
    ensures SameFrame(old(f.hdr), old(f.Buf()), f.hdr, f.Buf())
    ensures WithoutPart(old(StructBlock(f.hdr, f.Buf())), StructBlock(f.hdr, f.Buf()), q, len)
    ensures Shrunk(old(f.hdr), old(f.Buf()), f.hdr, f.Buf(), len)
  {
    hide Parse, Denotes, Opened;
    ghost var h, b := f.hdr, f.Buf();
    ghost var ts := TokensOf(h, b, cs);
    ParseSplit(StructBlock(h, b), ts, j);
    err := SpliceStruct(f, q, len, 0);
    OpenedSizes(h, b, f.hdr, f.Buf(), q, len, 0);
    OpenedBlock(h, b, f.hdr, f.Buf(), q, len, 0);
    OpenedShrinks(h, b, f.hdr, f.Buf(), q, len);
    ghost var gap := f.Buf()[h.offStruct + q..h.offStruct + q];
    assert gap == [];
    ParsesEmpty(gap);
    NoneMean(StringsBlock(h, b));
    Edited(h, b, cs, ts, i, j, f.hdr, f.Buf(), [], [], q, len, 0);
    assert cs[..i] + [] == cs[..i];
    ghost var s := StructBlock(h, b);
    assert s[..q] + gap == s[..q];
  }

  lemma NoneMean(strs: seq<byte>)
    ensures AllMean([], [], strs, 0)
  {
  }

  lemma ParsesEmpty(s: seq<byte>)
    requires s == []
    ensures Parse(s) == Some([])
  {
  }

  // ---- fdt_setprop

  /** The words of a property token, as the blob holds them. */
  lemma PropCells(h: Header, b: seq<byte>, cs: seq<Call>, j: nat) returns (key: u32)
    requires Complete(h, b, cs) && j < |cs| && cs[j].Prop?
    ensures TokensOf(h, b, cs)[j] == Prop(key, cs[j].value)
    ensures Off(h, b, j) + 12 + Align4(|cs[j].value|) == Off(h, b, j + 1) <= h.sizeStruct
    ensures Ld32(b, h.offStruct + Off(h, b, j)) == FDT_PROP && Ld32(b, h.offStruct + Off(h, b, j) + 8) == key
    ensures StringAt(StringsBlock(h, b), Int32(key)) == Some(cs[j].key)
  {
    hide Parse, StringAt, Int32, HeadToken, Ld32, Align4;
    var ts, o := TokensOf(h, b, cs), Off(h, b, j);
    assert Means(ts[j], cs[j], StringsBlock(h, b), 0);
    key := ts[j].key;
    ParseAt(StructBlock(h, b), ts, j);
    hide Offset, AllMean;
    var end := h.offStruct + h.sizeStruct;
    PropHead(b[h.offStruct..end][o..], key, cs[j].value);
    TailLd32(b, h.offStruct, end, o, 0);
    TailLd32(b, h.offStruct, end, o, 8);
  }

  /** Two stores turn the words of a resized property into the new token. */
  lemma PropRewritten(b: seq<byte>, b1: seq<byte>, at: nat, key: u32, v: seq<byte>)
    requires at + 12 + Align4(|v|) <= |b1| && at + 12 <= |b| && |v| < TWO31
    requires b1[..at + 12] == b[..at + 12] && Ld32(b, at) == FDT_PROP && Ld32(b, at + 8) == key
    ensures var b3 := Patch(Patch(b1, at + 4, Be32(|v|)), at + 12, v);
            SameAround(b1, b3, at, 12 + Align4(|v|)) && Parse(b3[at..at + 12 + Align4(|v|)]) == Some([Prop(key, v)])
  {
    hide Be32, Ld32, Patch, Parse;
    PrefixSlice(b, b1, at + 12, at, at + 4);
    PrefixSlice(b, b1, at + 12, at + 8, at + 12);
    Ld32Same(b, at, b1, at);
    Ld32Same(b, at + 8, b1, at + 8);
    var b2 := Patch(b1, at + 4, Be32(|v|));
    LdPatchOther(b1, at + 4, Be32(|v|), at);
    LdPatchOther(b1, at + 4, Be32(|v|), at + 8);
    LdPatch(b1, at + 4, |v|);
    LdPatchOther(b2, at + 12, v, at);
    LdPatchOther(b2, at + 12, v, at + 4);
    LdPatchOther(b2, at + 12, v, at + 8);
    PatchHere(b2, at + 12, v);
    PropLayout(Patch(b2, at + 12, v), at, key, v);
    PatchAround(b1, at + 4, Be32(|v|), at, 12 + Align4(|v|));
    PatchAround(b2, at + 12, v, at, 12 + Align4(|v|));
  }

  /** fdt_resize_property_ and the value: the property keeps its place. */
  method ResizeProp(f: Fdt, off: nat, oldlen: nat, val: seq<byte>, ghost cs: seq<Call>, ghost j: nat) returns (err: int)
    requires f.Mapped() && Complete(f.hdr, f.Buf(), cs) && Points(f.hdr, f.Buf(), cs, j, off)
    requires cs[j].Prop? && oldlen == |cs[j].value|
    modifies f`hdr, f.mem
    ensures Confined(f) && f.Mapped()
    ensures err == if Room(old(f.hdr), Align4(oldlen), Align4(|val|)) then 0 else -ERR_NOSPACE
    ensures err != 0 ==> f.hdr == old(f.hdr) && f.Buf() == old(f.Buf())
    ensures err == 0 ==> Complete(f.hdr, f.Buf(), cs[..j] + [Prop(cs[j].key, val)] + cs[j + 1..])
    ensures err == 0 ==> SameFrame(old(f.hdr), old(f.Buf()), f.hdr, f.Buf())
  {
    hide Parse, Align4, StringAt, Int32, Opened, Denotes, SameAround, Patch, Ld32, Be32;
    ghost var h, b := f.hdr, f.Buf();
    ghost var ts := TokensOf(h, b, cs);
    ghost var key := PropCells(h, b, cs, j);
    err := SpliceStruct(f, off + 12, Align4(oldlen), Align4(|val|));
    if err != 0 {
      return;
    }
    ghost var h', b1 := f.hdr, f.Buf();
    OpenedSizes(h, b, h', b1, off + 12, Align4(oldlen), Align4(|val|));
    OpenedPrefix(h, b, h', b1, off + 12, Align4(oldlen), Align4(|val|));
    Store(f, f.hdr.offStruct + off + 4, Be32(|val|));
    Store(f, f.hdr.offStruct + off + 12, val);
    PropRewritten(b, b1, h.offStruct + off, key, val);
    ResizeEdited(h, b, h', b1, f.Buf(), off, val, cs, j, key);
  }

  lemma ResizeEdited(h: Header, b: seq<byte>, h': Header, b1: seq<byte>, b3: seq<byte>, off: nat, val: seq<byte>,
                     cs: seq<Call>, j: nat, key: u32)
    requires Complete(h, b, cs) && Points(h, b, cs, j, off) && cs[j].Prop?
    requires Off(h, b, j) + 12 + Align4(|cs[j].value|) == Off(h, b, j + 1)
    requires StringAt(StringsBlock(h, b), Int32(key)) == Some(cs[j].key)
    requires Opened(h, b, h', b1, off + 12, Align4(|cs[j].value|), Align4(|val|))
    requires SameAround(b1, b3, h.offStruct + off, 12 + Align4(|val|))
    requires Parse(b3[h.offStruct + off..h.offStruct + off + 12 + Align4(|val|)]) == Some([Prop(key, val)])
    ensures Complete(h', b3, cs[..j] + [Prop(cs[j].key, val)] + cs[j + 1..])
    ensures b3[..h.offStruct] == b[..h.offStruct]
  {
    hide Parse, Align4, StringAt, Int32, Opened, Denotes, SameAround, Offset;
    var m, n := Align4(|cs[j].value|), Align4(|val|);
    OpenedWider(h, b, h', b1, off + 12, m, n, 12);
    OpenedFilled(h, b, h', b1, b3, off, m + 12, n + 12);
    OneMeans(Prop(key, val), Prop(cs[j].key, val), StringsBlock(h, b));
    Edited(h, b, cs, TokensOf(h, b, cs), j, j + 1, h', b3, [Prop(key, val)], [Prop(cs[j].key, val)], off, m + 12,
           n + 12);
  }

  lemma OpenedPrefix(h: Header, b: seq<byte>, h': Header, b': seq<byte>, q: nat, m: nat, n: nat)
    requires Opened(h, b, h', b', q, m, n)
    ensures h.offStruct + q <= |b| && b'[..h.offStruct + q] == b[..h.offStruct + q]
  {
  }

  /** A blob whose tokens are those of the edited tree spells it. */
  lemma SpellsEdit(t: Hedge, k: nat, body: Hedge, x: nat, y: nat, ds: seq<Call>, h: Header, b: seq<byte>)
    requires IsNode(t, k) && x <= y <= |Flat(BodyAt(t, k))| && k + 1 + y <= |Flat(t)|
    requires Flat(body) == Flat(BodyAt(t, k))[..x] + ds + Flat(BodyAt(t, k))[y..]
    requires Complete(h, b, (Flat(t) + [End])[..k + 1 + x] + ds + (Flat(t) + [End])[k + 1 + y..])
    ensures Spells(h, b, EditBody(t, k, body))
  {
    hide Complete, EditBody;
    BodyEdit(t, k, body, x, y, ds);
  }

  /** Room for a new property, its name included if that is new too. */
  predicate AddRoom(h: Header, b: seq<byte>, name: seq<byte>, val: seq<byte>)
    requires |b| == h.totalsize && h.offStrings + h.sizeStrings <= h.totalsize
  {
    Room(h, 0, NewName(h, b, name) + 12 + Align4(|val|))
  }

  /** Room for a value in place of an old one, or as a new property. */
  predicate SetRoom(h: Header, b: seq<byte>, found: Option<seq<byte>>, name: seq<byte>, val: seq<byte>)
    requires |b| == h.totalsize && h.offStrings + h.sizeStrings <= h.totalsize
  {
    match found
    case Some(v) => Room(h, Align4(|v|), Align4(|val|))
    case None => AddRoom(h, b, name, val)
  }

  /** A named property before token `i`: name, space and words, or no trace. */
  method InsertNamed(f: Fdt, q: nat, name: CStr, val: seq<byte>, ghost cs: seq<Call>, ghost i: nat) returns (err: int)
    requires f.Mapped() && Complete(f.hdr, f.Buf(), cs) && Points(f.hdr, f.Buf(), cs, i, q)
    modifies f`hdr, f.mem
    ensures Confined(f) && f.Mapped()
    ensures err == if old(AddRoom(f.hdr, f.Buf(), name, val)) then 0 else -ERR_NOSPACE
    ensures err != 0 ==> f.hdr == old(f.hdr) && Complete(f.hdr, f.Buf(), cs)
    ensures err == 0 ==> Complete(f.hdr, f.Buf(), cs[..i] + [Prop(name, val)] + cs[i..])
    ensures SameFrame(old(f.hdr), old(f.Buf()), f.hdr, f.Buf())
  {
    hide Parse, Align4, StringAt, Complete, Int32, NameReady;
    ghost var h, b := f.hdr, f.Buf();
    FrameSelf(h, b, cs);
    var off, added := FindAddName(f, name, cs);
    if off < 0 {
      return -ERR_NOSPACE;
    }
    ghost var b1 := f.Buf();
    NameKept(h, b, f.hdr, b1, name, off, added, cs, i);
    SmallWord(off);
    err := InsertProp(f, q, off, name, val, cs, i);
    if err != 0 {
      if added {
        f.hdr := f.hdr.(sizeStrings := f.hdr.sizeStrings - (|name| + 1));
      }
      assert f.hdr == h;
      assert f.Buf() == b1;
    }
  }

  /** fdt_add_property_: the property becomes the first of its node, and a
      failure leaves no trace, not even a new name. */
  method AddProperty(f: Fdt, nodeoffset: int, name: CStr, val: seq<byte>, ghost t: Hedge, ghost k: nat)
    returns (err: int)
    requires HasTree(f, t) && NodeArg(f, t, k, nodeoffset)
    modifies f`hdr, f.mem
    ensures Confined(f) && f.Mapped()
    ensures err == if old(AddRoom(f.hdr, f.Buf(), name, val)) then 0 else -ERR_NOSPACE
    ensures err != 0 ==> f.hdr == old(f.hdr) && HasTree(f, t)
    ensures err == 0 ==> HasTree(f, EditBody(t, k, PropH(name, val, BodyAt(t, k))))
    ensures SameFrame(old(f.hdr), old(f.Buf()), f.hdr, f.Buf())
  {
    hide Parse, Align4, Complete, EditBody;
    ghost var cs := Flat(t) + [End];
    NodeTokens(t, k);
    PointsArg(f.hdr, f.Buf(), cs, k, nodeoffset);
    var next := CheckNodeOffset(f, nodeoffset, cs, k);
    err := InsertNamed(f, next, name, val, cs, k + 1);
    if err == 0 {
      FlatFirst(name, val, BodyAt(t, k));
      SpellsEdit(t, k, PropH(name, val, BodyAt(t, k)), 0, 0, [Prop(name, val)], f.hdr, f.Buf());
    }
  }

  lemma FlatFirst(name: seq<byte>, val: seq<byte>, body: Hedge)
    ensures Flat(PropH(name, val, body)) == Flat(body)[..0] + [Prop(name, val)] + Flat(body)[0..]
  {
  }

  lemma NameKept(h: Header, b: seq<byte>, h': Header, b': seq<byte>, s: seq<byte>, off: nat, added: bool,
                 cs: seq<Call>, i: nat)
    requires NameReady(h, b, h', b', s, off, added, cs) && Complete(h, b, cs) && i < |cs|
    ensures StructBlock(h', b') == StructBlock(h, b) && Parsed(h', b', |cs|) && Off(h', b', i) == Off(h, b, i)
    ensures b'[..h.offStruct] == b[..h.offStruct] && off < TWO31
    ensures Complete(h, b', cs) && Complete(h', b', cs) && |b| == |b'|
    ensures h'.sizeStrings == h.sizeStrings + (if added then |s| + 1 else 0) && h' == h.(sizeStrings := h'.sizeStrings)
    ensures StringAt(StringsBlock(h', b'), off) == Some(s)
  {
    hide Denotes, Parse, StringAt;
    PrefixSlice(b, b', h.offStrings, h.offStruct, h.offStruct + h.sizeStruct);
    PrefixSlice(b, b', h.offStrings, 0, h.offStruct);
    var ts := TokensOf(h, b, cs);
  }

  /** fdt_setprop: the blob spells the old tree with just that property changed
      in place, or put first in its node if it is new. */
  method SetProperty(f: Fdt, nodeoffset: int, name: CStr, val: seq<byte>, ghost t: Hedge, ghost k: nat)
    returns (err: int)
    requires HasTree(f, t) && Arg(f.hdr, f.Buf(), Flat(t) + [End], k, nodeoffset)
    modifies f`hdr, f.mem
    ensures Confined(f) && f.Mapped()
    ensures RwProbe(old(f.hdr)) != 0 ==> err == RwProbe(old(f.hdr))
    ensures RwProbe(old(f.hdr)) == 0 && !old(NodeArg(f, t, k, nodeoffset)) ==> err == -4
    ensures RwProbe(old(f.hdr)) == 0 && old(NodeArg(f, t, k, nodeoffset)) ==>
              err == if SetRoom(old(f.hdr), old(f.Buf()), Lookup(BodyAt(t, k), name), name, val)
                     then 0 else -3
    ensures err != 0 ==> f.hdr == old(f.hdr) && HasTree(f, t)
    ensures err == 0 ==> IsNode(t, k) && HasTree(f, EditBody(t, k, SetProp(BodyAt(t, k), name, val)))
    ensures SameFrame(old(f.hdr), old(f.Buf()), f.hdr, f.Buf())
  {
    hide Parse, Align4, StringAt, Denotes, EditBody, Complete, PropToken, RwProbe;
    err := RwProbe(f.hdr);
    FrameSelf(f.hdr, f.Buf(), Flat(t) + [End]);
    if err != 0 {
      return;
    }
    var off, len := FindProp(f, nodeoffset, name, t, k);
    if off >= 0 {
      ghost var j := PropToken(t, k, name);
      err := ResizeProp(f, off, len, val, Flat(t) + [End], j);
      if err == 0 {
        SetInPlace(t, k, name, val, f.hdr, f.Buf());
      }
    } else if off == -ERR_NOTFOUND {
      err := AddProperty(f, nodeoffset, name, val, t, k);
    } else {
      err := off;
    }
  }

  lemma FrameSelf(h: Header, b: seq<byte>, cs: seq<Call>)
    requires Complete(h, b, cs)
    ensures SameFrame(h, b, h, b)
  {
  }

  lemma SetInPlace(t: Hedge, k: nat, name: seq<byte>, val: seq<byte>, h: Header, b: seq<byte>)
    requires IsNode(t, k) && Lookup(BodyAt(t, k), name).Some?
    requires var cs, j := Flat(t) + [End], PropToken(t, k, name);
             j < |cs| && Complete(h, b, cs[..j] + [Prop(name, val)] + cs[j + 1..])
    ensures Spells(h, b, EditBody(t, k, SetProp(BodyAt(t, k), name, val)))
  {
    hide Complete, EditBody;
    var body := BodyAt(t, k);
    var m := PropH(name, val, Nil);
    FlatProp(body, name, m);
    FlatNode(t, k);
    assert Flat(m) == [Prop(name, val)] by { assert Flat(Nil) == []; }
    var j := PropIndex(body, name);
    SpellsEdit(t, k, SetProp(body, name, val), j, j + 1, [Prop(name, val)], h, b);
  }

  // ---- deletion

  /** fdt_delprop */
  method DelProperty(f: Fdt, nodeoffset: int, name: CStr, ghost t: Hedge, ghost k: nat) returns (err: int)
    requires HasTree(f, t) && Arg(f.hdr, f.Buf(), Flat(t) + [End], k, nodeoffset)
    modifies f`hdr, f.mem
    ensures Confined(f) && f.Mapped()
    ensures RwProbe(old(f.hdr)) != 0 ==> err == RwProbe(old(f.hdr))
    ensures RwProbe(old(f.hdr)) == 0 && !old(NodeArg(f, t, k, nodeoffset)) ==> err == -4
    ensures RwProbe(old(f.hdr)) == 0 && old(NodeArg(f, t, k, nodeoffset)) ==>
              err == if Lookup(BodyAt(t, k), name).Some? then 0 else -1
    ensures err != 0 ==> f.hdr == old(f.hdr) && f.Buf() == old(f.Buf())
    ensures err == 0 ==> IsNode(t, k) && HasTree(f, EditBody(t, k, ReplaceProp(BodyAt(t, k), name, Nil)))
    ensures SameFrame(old(f.hdr), old(f.Buf()), f.hdr, f.Buf())
  {
    hide Parse, Align4, Complete, EditBody, PropToken, RwProbe;
    hide SameFrame, WithoutPart, Shrunk, Flat, ReplaceProp, BodyAt, Lookup;
    err := RwProbe(f.hdr);
    FrameSelf(f.hdr, f.Buf(), Flat(t) + [End]);
    if err != 0 {
      return;
    }
    var off, len := FindProp(f, nodeoffset, name, t, k);
    if off < 0 {
      return off;
    }
    ghost var cs, j := Flat(t) + [End], PropToken(t, k, name);
    ghost var key := PropCells(f.hdr, f.Buf(), cs, j);
    err := CutTokens(f, off, 12 + Align4(len), cs, j, j + 1);
    PropGone(t, k, name, Nil, f.hdr, f.Buf());
  }

  /** Tokens `ds` in place of a property: the tree with their hedge there. */
  lemma PropGone(t: Hedge, k: nat, name: seq<byte>, m: Hedge, h: Header, b: seq<byte>)
    requires IsNode(t, k) && Lookup(BodyAt(t, k), name).Some?
    requires var cs, j := Flat(t) + [End], PropToken(t, k, name);
             && j < |cs|
             && (|| Complete(h, b, cs[..j] + Flat(m) + cs[j + 1..])
                 || (m == Nil && Complete(h, b, cs[..j] + cs[j + 1..])))
    ensures Spells(h, b, EditBody(t, k, ReplaceProp(BodyAt(t, k), name, m)))
  {
    hide Complete, EditBody;
    var body := BodyAt(t, k);
    FlatProp(body, name, m);
    FlatNode(t, k);
    var cs, j := Flat(t) + [End], PropToken(t, k, name);
    if m == Nil {
      assert cs[..j] + Flat(m) == cs[..j];
    }
    SpellsEdit(t, k, ReplaceProp(body, name, m), PropIndex(body, name), PropIndex(body, name) + 1, Flat(m), h, b);
  }

  /** fdt_del_node: the subtree is gone and nothing else has changed. */
  method DelNode(f: Fdt, nodeoffset: int, ghost t: Hedge, ghost k: nat) returns (err: int)
    requires HasTree(f, t) && Arg(f.hdr, f.Buf(), Flat(t) + [End], k, nodeoffset)
    modifies f`hdr, f.mem
    ensures Confined(f) && f.Mapped()
    ensures RwProbe(old(f.hdr)) != 0 ==> err == RwProbe(old(f.hdr))
    ensures RwProbe(old(f.hdr)) == 0 ==> (err == 0 <==> old(NodeArg(f, t, k, nodeoffset)))
    ensures err != 0 ==> err < 0 && f.hdr == old(f.hdr) && f.Buf() == old(f.Buf())
    ensures err == 0 ==> IsNode(t, k) && HasTree(f, ReplaceAt(t, k, Nil))
    ensures SameFrame(old(f.hdr), old(f.Buf()), f.hdr, f.Buf())
    ensures err == 0 ==> old(Parsed(f.hdr, f.Buf(), |Flat(t)| + 1)) && NodeEnd(t, k) <= |Flat(t)|
    ensures err == 0 ==> nodeoffset >= 0 && old(Off(f.hdr, f.Buf(), NodeEnd(t, k))) >= nodeoffset
    ensures err == 0 ==>
      WithoutPart(old(StructBlock(f.hdr, f.Buf())), StructBlock(f.hdr, f.Buf()), nodeoffset,
                  old(Off(f.hdr, f.Buf(), NodeEnd(t, k))) - nodeoffset)
    ensures err == 0 ==>
              Shrunk(old(f.hdr), old(f.Buf()), f.hdr, f.Buf(), old(Off(f.hdr, f.Buf(), NodeEnd(t, k))) - nodeoffset)
  {
    hide Parse, Complete, RwProbe, WithoutPart, ReplaceAt, Shrunk;
    err := RwProbe(f.hdr);
    FrameSelf(f.hdr, f.Buf(), Flat(t) + [End]);
    if err != 0 {
      return;
    }
    ghost var cs := Flat(t) + [End];
    var endoffset := NodeEndOffset(f, nodeoffset, t, k);
    if endoffset < 0 {
      return endoffset;
    }
    PointsAligned(f.hdr, f.Buf(), cs, k, nodeoffset);
    OffMono(f.hdr, f.Buf(), cs, k, NodeEnd(t, k));
    err := CutTokens(f, nodeoffset, endoffset - nodeoffset, cs, k, NodeEnd(t, k));
    NodeGone(t, k, Nil, f.hdr, f.Buf());
  }

  lemma NodeGone(t: Hedge, k: nat, m: Hedge, h: Header, b: seq<byte>)
    requires IsNode(t, k) && NodeEnd(t, k) <= |Flat(t)|
    requires var cs := Flat(t) + [End];
             || Complete(h, b, cs[..k] + Flat(m) + cs[NodeEnd(t, k)..])
             || (m == Nil && Complete(h, b, cs[..k] + cs[NodeEnd(t, k)..]))
    ensures Spells(h, b, ReplaceAt(t, k, m))
  {
    hide Complete;
    var cs, e := Flat(t) + [End], NodeEnd(t, k);
    FlatReplace(t, k, m);
    hide ReplaceAt, NodeEnd;
    assert cs[..k] == Flat(t)[..k] && cs[e..] == Flat(t)[e..] + [End];
    Assoc(Flat(t)[..k] + Flat(m), Flat(t)[e..], [End]);
    if m == Nil {
      assert cs[..k] + Flat(m) == cs[..k];
    }
  }
}
