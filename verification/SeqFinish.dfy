/** fdt_finish, and whole runs of the writer: the finished blob says exactly the
    calls that succeeded. */
module SeqFinish {
  import opened Bytes
  import opened Tokens
  import opened Blob
  import opened StringTable
  import opened Reader
  import opened Probe
  import opened SeqWriter

  // ---- renumbering one property

  lemma RekeyPiece(s: seq<byte>, o: nat, key0: u32, v: seq<byte>, key: u32)
    requires o <= |s| && HeadToken(s[o..]) == Tok(Prop(key0, v))
    ensures o + 12 + Align4(|v|) <= |s|
    ensures Parse(Patch(s, o + 8, Be32(key))[o..o + 12 + Align4(|v|)]) == Some([Prop(key, v)])
  {
    hide Parse;
    hide Be32;
    PropHead(s[o..], key0, v);
    hide HeadToken;
    hide Ld32;
    SliceSlice(s, o, |s|, 0, 4);
    SliceSlice(s, o, |s|, 4, 8);
    SliceSlice(s, o, |s|, 12, 12 + |v|);
    Ld32Same(s[o..], 0, s, o);
    Ld32Same(s[o..], 4, s, o + 4);
    LdPatchOther(s, o + 8, Be32(key), o);
    LdPatchOther(s, o + 8, Be32(key), o + 4);
    LdPatch(s, o + 8, key);
    var s' := Patch(s, o + 8, Be32(key));
    assert s'[o + 12..o + 12 + |v|] == s[o + 12..o + 12 + |v|];
    hide Patch;
    PropLayout(s', o, key, v);
  }

  /** Rewriting the name offset of a property rewrites just that token. */
  lemma Rekey(s: seq<byte>, ts: seq<RawToken>, k: nat, key: u32)
    requires Parse(s) == Some(ts) && k < |ts| && ts[k].Prop?
    ensures Offset(ts, k) + 12 <= |s|
    ensures Parse(Patch(s, Offset(ts, k) + 8, Be32(key))) == Some(ts[k := Prop(key, ts[k].value)])
  {
    hide Parse;
    hide HeadToken;
    hide Be32;
    hide Patch;
    ParseAt(s, ts, k);
    var o, e, v := Offset(ts, k), Offset(ts, k + 1), ts[k].value;
    RekeyPiece(s, o, ts[k].key, v, key);
    var s' := Patch(s, o + 8, Be32(key));
    ParseSplice(s, ts, k, k + 1, s'[o..e], [Prop(key, v)]);
    PatchSplit(s, o + 8, Be32(key), o, e);
    assert ts[..k] + [Prop(key, v)] + ts[k + 1..] == ts[k := Prop(key, v)];
  }

  lemma PatchSplit(s: seq<byte>, off: nat, t: seq<byte>, o: nat, e: nat)
    requires o <= off && off + |t| <= e <= |s|
    ensures Patch(s, off, t) == s[..o] + Patch(s, off, t)[o..e] + s[e..]
  {
  }

  lemma {:induction false} OffsetRekey(ts: seq<RawToken>, us: seq<RawToken>, k: nat)
    requires |ts| == |us| && k <= |ts|
    requires forall i :: 0 <= i < |ts| ==> ts[i].Size() == us[i].Size()
    ensures Offset(ts, k) == Offset(us, k)
  {
    if k > 0 {
      OffsetRekey(ts, us, k - 1);
    }
  }

  /** The token after renumbering: offsets counted from the start of the block. */
  function Renumber(t: RawToken, size: u32): (r: RawToken)
  {
    match t
    case Prop(key, v) => Prop(U32(Int32(key) + size), v)
    case _ => t
  }

  function RenumberTo(ts: seq<RawToken>, k: nat, size: u32): (us: seq<RawToken>)
    ensures |us| == |ts|
  {
    seq(|ts|, i requires 0 <= i < |ts| => if i < k then Renumber(ts[i], size) else ts[i])
  }

  lemma RenumberStep(ts: seq<RawToken>, k: nat, size: u32)
    requires k < |ts|
    ensures RenumberTo(ts, k + 1, size) == RenumberTo(ts, k, size)[k := Renumber(ts[k], size)]
  {
    hide Renumber;
  }

  /** A renumbered property keeps its name. */
  lemma RenumberMeans(t: RawToken, c: Call, strs: seq<byte>)
    requires |strs| < TWO31 && Means(t, c, strs, |strs|)
    ensures Means(Renumber(t, |strs|), c, strs, 0)
  {
    if t.Prop? {
      KeyRoundTrip(Int32(t.key) + |strs|);
    }
  }

  lemma AllRenumbered(ts: seq<RawToken>, cs: seq<Call>, strs: seq<byte>)
    requires |strs| < TWO31 && AllMean(ts, cs, strs, |strs|)
    ensures AllMean(RenumberTo(ts, |ts|, |strs|), cs, strs, 0)
  {
    hide Means;
    forall i | 0 <= i < |ts|
      ensures Means(RenumberTo(ts, |ts|, |strs|)[i], cs[i], strs, 0)
    {
      RenumberMeans(ts[i], cs[i], strs);
    }
  }

  /** Patching inside the structure block patches the block. */
  lemma PatchStruct(h: Header, b: seq<byte>, o: nat, t: seq<byte>)
    requires |b| == h.totalsize && h.offStruct + h.sizeStruct <= h.offStrings
    requires h.offStrings + h.sizeStrings <= h.totalsize && o + |t| <= h.sizeStruct
    ensures StructBlock(h, Patch(b, h.offStruct + o, t)) == Patch(StructBlock(h, b), o, t)
    ensures StringsBlock(h, Patch(b, h.offStruct + o, t)) == StringsBlock(h, b)
    ensures Patch(b, h.offStruct + o, t)[..h.offStruct] == b[..h.offStruct]
  {
    var l, r := StructBlock(h, Patch(b, h.offStruct + o, t)), Patch(StructBlock(h, b), o, t);
    forall i | 0 <= i < |l|
      ensures l[i] == r[i]
    {
    }
  }

  // ---- fdt_finish

  /** What the walk has done after `k` tokens: the state that its loop keeps. */
  predicate Walking(h: Header, b: seq<byte>, ts: seq<RawToken>, k: nat, strs: seq<byte>) {
    && h.version == 17 && h.totalsize < TWO31 && |b| == h.totalsize
    && h.offStruct + h.sizeStruct <= h.offStrings
    && h.offStrings + h.sizeStrings <= h.totalsize
    && k <= |ts|
    && Parse(StructBlock(h, b)) == Some(RenumberTo(ts, k, h.sizeStrings))
    && StringsBlock(h, b) == strs
  }

  lemma WalkOffset(ts: seq<RawToken>, k: nat, size: u32, i: nat)
    requires k <= |ts| && i <= |ts|
    ensures Offset(RenumberTo(ts, k, size), i) == Offset(ts, i)
  {
    hide U32;
    OffsetRekey(RenumberTo(ts, k, size), ts, i);
  }

  /** Where the walk stands, fdt_next_tag reports the next token. */
  lemma WalkTag(h: Header, b: seq<byte>, ts: seq<RawToken>, k: nat, strs: seq<byte>)
    requires Walking(h, b, ts, k, strs) && k < |ts|
    ensures 0 <= Offset(ts, k) < TWO31
    ensures NextTag(h, b, Offset(ts, k)) == (ts[k].Tag(), Offset(ts, k + 1))
  {
    hide Parse;
    hide NextTag;
    var us := RenumberTo(ts, k, h.sizeStrings);
    NextTagAt(h, b, us, k);
    WalkOffset(ts, k, h.sizeStrings, k);
    WalkOffset(ts, k, h.sizeStrings, k + 1);
  }

  /** The name offset that the walk reads is the property's. */
  lemma WalkKey(h: Header, b: seq<byte>, ts: seq<RawToken>, k: nat, strs: seq<byte>)
    requires Walking(h, b, ts, k, strs) && k < |ts| && ts[k].Prop?
    ensures Offset(ts, k) + 12 <= h.sizeStruct
    ensures Ld32(b, h.offStruct + Offset(ts, k) + 8) == ts[k].key
  {
    hide Parse, Ld32, HeadToken;
    var us := RenumberTo(ts, k, h.sizeStrings);
    var s, o := StructBlock(h, b), Offset(ts, k);
    assert us[k] == ts[k];
    WalkOffset(ts, k, h.sizeStrings, k);
    hide RenumberTo;
    ParseAt(s, us, k);
    hide Offset;
    PropHead(s[o..], ts[k].key, ts[k].value);
    TailLd32(b, h.offStruct, h.offStruct + h.sizeStruct, o, 8);
  }

  /** One renumbering step of the walk. */
  lemma WalkProp(h: Header, b: seq<byte>, ts: seq<RawToken>, k: nat, strs: seq<byte>, key: u32)
    requires Walking(h, b, ts, k, strs) && k < |ts| && ts[k].Prop?
    requires Renumber(ts[k], h.sizeStrings) == Prop(key, ts[k].value)
    requires Offset(ts, k) + 12 <= h.sizeStruct
    ensures Walking(h, Patch(b, h.offStruct + Offset(ts, k) + 8, Be32(key)), ts, k + 1, strs)
    ensures Patch(b, h.offStruct + Offset(ts, k) + 8, Be32(key))[..h.offStruct] == b[..h.offStruct]
  {
    hide Parse;
    hide Be32;
    hide Patch;
    hide Renumber;
    var us := RenumberTo(ts, k, h.sizeStrings);
    assert us[k] == ts[k];
    WalkOffset(ts, k, h.sizeStrings, k);
    RenumberStep(ts, k, h.sizeStrings);
    hide RenumberTo;
    hide Offset;
    Rekey(StructBlock(h, b), us, k, key);
    PatchStruct(h, b, Offset(ts, k) + 8, Be32(key));
  }

  lemma WalkOther(h: Header, b: seq<byte>, ts: seq<RawToken>, k: nat, strs: seq<byte>)
    requires Walking(h, b, ts, k, strs) && k < |ts| && !ts[k].Prop?
    ensures Walking(h, b, ts, k + 1, strs)
  {
    assert RenumberTo(ts, k + 1, h.sizeStrings) == RenumberTo(ts, k, h.sizeStrings);
  }

  /** The loop of fdt_finish: correct every name offset, up to the END tag. */
  method WalkNames(f: Fdt, ghost ts: seq<RawToken>, ghost strs: seq<byte>) returns (nextoffset: int)
    requires f.Mapped() && Walking(f.hdr, f.Buf(), ts, 0, strs)
    requires |ts| > 0 && ts[|ts| - 1] == End && forall i :: 0 <= i < |ts| - 1 ==> !ts[i].End?
    modifies f.mem
    ensures Confined(f) && nextoffset >= 0
    ensures Walking(f.hdr, f.Buf(), ts, |ts|, strs)
    ensures f.Buf()[..f.hdr.offStruct] == old(f.Buf()[..f.hdr.offStruct])
  {
    hide Parse;
    hide NextTag;
    hide Walking;
    hide Patch;
    hide Be32;
    hide Ld32;
    var h := f.hdr;
    var offset := 0;
    ghost var k := 0;
    WalkTag(h, f.Buf(), ts, 0, strs);
    WalkHeader(h, f.Buf(), ts, 0, strs);
    var tag;
    tag, nextoffset := FdtNextTag(f, offset);
    while tag != FDT_END
      invariant 0 <= k < |ts|
      invariant offset == Offset(ts, k) && (tag, nextoffset) == (ts[k].Tag(), Offset(ts, k + 1))
      invariant Walking(h, f.Buf(), ts, k, strs)
      invariant Confined(f)
      invariant f.Buf()[..h.offStruct] == old(f.Buf()[..f.hdr.offStruct])
      decreases |ts| - k
    {
      WalkHeader(h, f.Buf(), ts, k, strs);
      if tag == FDT_PROP {
        WalkKey(h, f.Buf(), ts, k, strs);
        var nameoff := Load32(f, h.offStruct + offset + 8);
        var moved := Int32(nameoff) + h.sizeStrings;
        WalkProp(h, f.Buf(), ts, k, strs, U32(moved));
        Store(f, h.offStruct + offset + 8, Be32(U32(moved)));
      } else {
        WalkOther(h, f.Buf(), ts, k, strs);
      }
      offset := nextoffset;
      k := k + 1;
      WalkTag(h, f.Buf(), ts, k, strs);
      WalkHeader(h, f.Buf(), ts, k, strs);
      tag, nextoffset := FdtNextTag(f, offset);
    }
    WalkOther(h, f.Buf(), ts, k, strs);
  }

  lemma WalkHeader(h: Header, b: seq<byte>, ts: seq<RawToken>, k: nat, strs: seq<byte>)
    requires Walking(h, b, ts, k, strs)
    ensures h.Sane() && h.offStruct + h.sizeStruct <= h.totalsize
  {
    hide Parse;
  }

  /** fdt_finish up to the END tag: `cs` and END are in the buffer. */
  method AppendEnd(f: Fdt, ghost cs: seq<Call>) returns (ok: bool)
    requires f.Mapped() && Holds(f.hdr, f.Buf(), cs)
    modifies f`hdr, f.mem
    ensures Confined(f) && f.Mapped()
    ensures ok == Fits(old(f.hdr), 4)
    ensures !ok ==> f.hdr == old(f.hdr) && f.Buf() == old(f.Buf())
    ensures ok ==> f.hdr == old(f.hdr).(sizeStruct := f.hdr.sizeStruct) && Holds(f.hdr, f.Buf(), cs + [End])
    ensures ok ==> f.Buf()[..f.hdr.offStruct] == old(f.Buf()[..f.hdr.offStruct])
  {
    hide Parse;
    hide Denotes;
    ghost var h, b := f.hdr, f.Buf();
    var r := GrabSpace(f, 4);
    if r.None? {
      return false;
    }
    assert f.Buf() == b;
    PutWord(f, f.hdr.offStruct + r.value, End);
    GrownBy(h, b, cs, f.hdr, f.Buf(), End, End);
    return true;
  }

  /** Relocation of the string table and the walk over the structure. */
  method Relocate(f: Fdt, ghost cs: seq<Call>)
    requires f.Mapped() && Holds(f.hdr, f.Buf(), cs + [End]) && forall i :: 0 <= i < |cs| ==> !cs[i].End?
    modifies f`hdr, f.mem
    ensures Confined(f) && f.Mapped()
    ensures f.hdr == old(f.hdr).(offStrings := f.hdr.offStrings)
    ensures f.hdr.offStrings == f.hdr.offStruct + f.hdr.sizeStruct
    ensures Layout(f.hdr) && Denotes(StructBlock(f.hdr, f.Buf()), cs + [End], StringsBlock(f.hdr, f.Buf()), 0)
    ensures f.Buf()[..f.hdr.offStruct] == old(f.Buf()[..f.hdr.offStruct])
  {
    hide Parse;
    hide Denotes;
    hide Walking;
    hide AllMean;
    hide Patch;
    ghost var strs := TailStrings(f.hdr, f.Buf());
    ghost var h, b := f.hdr, f.Buf();
    var oldstroffset := f.hdr.totalsize - f.hdr.sizeStrings;
    var newstroffset := f.hdr.offStruct + f.hdr.sizeStruct;
    Move(f, newstroffset, oldstroffset, f.hdr.sizeStrings);
    ghost var b' := f.Buf();
    f.hdr := f.hdr.(offStrings := newstroffset);
    assert f.Buf() == b';
    ghost var ts := StartWalk(h, b, f.hdr, b', cs, strs);
    var nextoffset := WalkNames(f, ts, strs);
    EndWalk(f.hdr, f.Buf(), ts, cs + [End], strs);
  }

  /** fdt_finish: the blob is complete, it says the calls and then END, and it
      ends exactly where its strings end. */
  method Finish(f: Fdt, ghost cs: seq<Call>) returns (err: int)
    requires f.Mapped()
    requires StructState(f.hdr) ==> Holds(f.hdr, f.Buf(), cs) && forall i :: 0 <= i < |cs| ==> !cs[i].End?
    modifies f`hdr, f.mem
    ensures Confined(f) && f.Mapped()
    ensures err == if ProbeStruct(old(f.hdr)) != 0 then ProbeStruct(old(f.hdr))
                   else if Fits(old(f.hdr), 4) then 0 else -ERR_NOSPACE
    ensures err != 0 ==> f.hdr == old(f.hdr) && f.Buf() == old(f.Buf())
    ensures err == 0 ==> Complete(f.hdr, f.Buf(), cs + [End])
    ensures err == 0 ==> f.hdr.totalsize == f.hdr.offStrings + f.hdr.sizeStrings
    ensures err == 0 ==> f.hdr.offStrings == f.hdr.offStruct + f.hdr.sizeStruct
    ensures err == 0 ==> f.hdr.offRsvmap == old(f.hdr.offRsvmap) && f.hdr.offStruct == old(f.hdr.offStruct)
    ensures err == 0 ==> f.hdr.lastCompVersion == FIRST_SUPPORTED_VERSION
    ensures err == 0 ==> f.Buf()[..f.hdr.offStruct] == old(f.Buf()[..f.hdr.offStruct])
  {
    hide Denotes;
    err := ProbeStruct(f.hdr);
    if err != 0 {
      return;
    }
    var ok := AppendEnd(f, cs);
    if !ok {
      return -ERR_NOSPACE;
    }
    Relocate(f, cs);
    ghost var h, b, m := f.hdr, f.Buf(), f.mem[..];
    f.hdr := f.hdr.(totalsize := f.hdr.offStrings + f.hdr.sizeStrings,
                    lastCompVersion := FIRST_SUPPORTED_VERSION, magic := FDT_MAGIC);
    assert f.mem[..] == m;
    SliceSlice(m, f.base, f.base + h.totalsize, 0, f.hdr.totalsize);
    assert f.Buf() == b[0..f.hdr.totalsize] == b[..f.hdr.totalsize];
    Shrink(h, b, f.hdr, f.Buf(), cs + [End]);
  }

  /** Moving the names next to the structure sets up the walk. */
  lemma StartWalk(h: Header, b: seq<byte>, h': Header, b': seq<byte>, cs: seq<Call>, strs: seq<byte>)
    returns (ts: seq<RawToken>)
    requires Holds(h, b, cs + [End]) && forall i :: 0 <= i < |cs| ==> !cs[i].End?
    requires strs == TailStrings(h, b)
    requires h' == h.(offStrings := h'.offStrings) && h'.offStrings == h.offStruct + h.sizeStruct
    requires b' == Patch(b, h'.offStrings, b[h.totalsize - h.sizeStrings..h.totalsize - h.sizeStrings + h.sizeStrings])
    ensures Walking(h', b', ts, 0, strs)
    ensures |ts| == |cs| + 1 && ts[|ts| - 1] == End && forall i :: 0 <= i < |ts| - 1 ==> !ts[i].End?
    ensures AllMean(ts, cs + [End], strs, |strs|)
    ensures b'[..h.offStruct] == b[..h.offStruct]
  {
    hide Parse;
    var s := StructBlock(h, b);
    ts := Parse(s).value;
    forall i | 0 <= i < |ts|
      ensures ts[i].End? <==> (cs + [End])[i].End?
    {
      assert Means(ts[i], (cs + [End])[i], strs, h.sizeStrings);
    }
    hide AllMean;
    assert (cs + [End])[|cs|] == End;
    assert forall i :: 0 <= i < |cs| ==> (cs + [End])[i] == cs[i];
    assert StructBlock(h', b') == s;
    PatchHere(b, h'.offStrings, strs);
    assert StringsBlock(h', b') == strs;
    assert RenumberTo(ts, 0, h.sizeStrings) == ts;
  }

  lemma EndWalk(h: Header, b: seq<byte>, ts: seq<RawToken>, cs: seq<Call>, strs: seq<byte>)
    requires Walking(h, b, ts, |ts|, strs) && AllMean(ts, cs, strs, |strs|)
    ensures Denotes(StructBlock(h, b), cs, StringsBlock(h, b), 0)
  {
    hide Parse;
    hide Means;
    AllRenumbered(ts, cs, strs);
  }

  /** Cutting the buffer off after the strings loses nothing. */
  lemma Shrink(h: Header, b: seq<byte>, h': Header, b': seq<byte>, cs: seq<Call>)
    requires |b| == h.totalsize && h'.totalsize <= |b| && b' == b[..h'.totalsize]
    requires h' == h.(totalsize := h'.totalsize, lastCompVersion := h'.lastCompVersion, magic := FDT_MAGIC)
    requires h.version == 17 && h.totalsize < TWO31 && h.offRsvmap <= h.offStruct
    requires h.offStruct + h.sizeStruct == h.offStrings && h.offStrings + h.sizeStrings == h'.totalsize
    requires Denotes(StructBlock(h, b), cs, StringsBlock(h, b), 0)
    ensures Complete(h', b', cs)
    ensures b'[..h.offStruct] == b[..h.offStruct]
  {
    hide Denotes;
    SliceSlice(b, 0, h'.totalsize, h.offStruct, h.offStruct + h.sizeStruct);
    SliceSlice(b, 0, h'.totalsize, h.offStrings, h.offStrings + h.sizeStrings);
  }

  // ---- whole runs

  datatype Op =
    | OpBegin(name: CStr)
    | OpEnd
    | OpProp(name: CStr, value: seq<byte>)
    | OpResize(base: nat, size: nat)

  /** The run comes to a property whose name would fool the room test. */
  const OVERLONG := 1

  /** The token that a successful call leaves behind. */
  function Recorded(op: Op, err: int): (r: seq<Call>) {
    if err != 0 then [] else
    match op
    case OpBegin(name) => [BeginNode(name)]
    case OpEnd => [EndNode]
    case OpProp(name, v) => [Prop(name, v)]
    case OpResize(_, _) => []
  }

  function Log(ops: seq<Op>, errs: seq<int>): (cs: seq<Call>)
    requires |ops| == |errs|
  {
    if ops == [] then [] else
    Log(ops[..|ops| - 1], errs[..|ops| - 1]) + Recorded(ops[|ops| - 1], errs[|ops| - 1])
  }

  lemma LogSnoc(ops: seq<Op>, errs: seq<int>, k: nat, err: int)
    requires k < |ops| && |errs| == k
    ensures Log(ops[..k + 1], errs + [err]) == Log(ops[..k], errs) + Recorded(ops[k], err)
  {
    assert ops[..k + 1][..k] == ops[..k] && (errs + [err])[..k] == errs;
  }

  /** One call of a run. */
  method Step(f: Fdt, op: Op, ghost cs: seq<Call>) returns (err: int)
    requires Writing(f, cs)
    requires op.OpProp? ==> |op.value| < TWO31 && NameOk(f.hdr, f.Buf(), op.name)
    requires op.OpResize? ==> op.base + op.size <= f.mem.Length && op.size < TWO31
    modifies f, f.mem
    ensures f.mem == old(f.mem) && Writing(f, cs + Recorded(op, err))
    ensures RsvKept(old(f.hdr), old(f.Buf()), f.hdr, f.Buf())
    ensures op.OpBegin? ==> err == if Fits(old(f.hdr), 4 + Align4(|op.name| + 1)) then 0 else -ERR_NOSPACE
    ensures op.OpEnd? ==> err == if Fits(old(f.hdr), 4) then 0 else -ERR_NOSPACE
    ensures op.OpProp? ==>
              err == if Fits(old(f.hdr), NameCost(old(f.hdr), old(f.Buf()), op.name) + 12 + Align4(|op.value|))
                     then 0 else -ERR_NOSPACE
    ensures op.OpResize? ==> (err == 0 <==> old(f.hdr.offStruct + f.hdr.sizeStruct + f.hdr.sizeStrings) <= op.size)
  {
    hide Denotes;
    match op {
      case OpBegin(name) =>
        err := BeginNodeCall(f, name, cs);
      case OpEnd =>
        err := EndNodeCall(f, cs);
      case OpProp(name, v) =>
        err := PropertyCall(f, name, v, cs);
      case OpResize(base, size) =>
        ghost var h, b := f.hdr, f.Buf();
        err := Resize(f, base, size);
        if err == 0 {
          ResizedHolds(h, b, f.hdr, f.Buf(), size, cs);
          PrefixSlice(b, f.Buf(), h.offStruct + h.sizeStruct, 0, h.offStruct);
        }
    }
    if Recorded(op, err) == [] {
      assert cs + [] == cs;
    }
  }

  /** Any run of writer calls, failures and moves included, up to the first property
      whose name would fool the room test: the buffer always holds exactly the
      calls that returned zero, in order. */
  method Replay(f: Fdt, ops: seq<Op>) returns (errs: seq<int>)
    requires Writing(f, [])
    requires forall i :: 0 <= i < |ops| && ops[i].OpProp? ==> |ops[i].value| < TWO31
    requires forall i :: 0 <= i < |ops| && ops[i].OpResize? ==>
              ops[i].base + ops[i].size <= f.mem.Length && ops[i].size < TWO31
    modifies f, f.mem
    ensures f.mem == old(f.mem)
    ensures |errs| <= |ops| && Writing(f, Log(ops[..|errs|], errs))
    ensures |errs| < |ops| ==>
              f.Mapped() && f.hdr.sizeStrings <= f.hdr.totalsize && ops[|errs|].OpProp? &&
              !NameOk(f.hdr, f.Buf(), ops[|errs|].name)
    ensures RsvKept(old(f.hdr), old(f.Buf()), f.hdr, f.Buf())
  {
    hide Writing, RsvKept, NameOk;
    errs := [];
    RsvSame(f, []);
    for k := 0 to |ops|
      invariant f.mem == old(f.mem) && f.Mapped() && f.hdr.sizeStrings <= f.hdr.totalsize
      invariant |errs| == k && Writing(f, Log(ops[..k], errs))
      invariant RsvKept(old(f.hdr), old(f.Buf()), f.hdr, f.Buf())
    {
      ghost var cs, h, b := Log(ops[..k], errs), f.hdr, f.Buf();
      if ops[k].OpProp? && !NameOk(f.hdr, f.Buf(), ops[k].name) {
        return;
      }
      var err := Step(f, ops[k], cs);
      RsvSame(f, cs + Recorded(ops[k], err));
      RsvKeptTrans(old(f.hdr), old(f.Buf()), h, b, f.hdr, f.Buf());
      LogSnoc(ops, errs, k, err);
      errs := errs + [err];
    }
    assert ops[..|ops|] == ops;
  }

  lemma RsvSame(f: Fdt, cs: seq<Call>)
    requires Writing(f, cs)
    ensures f.Mapped() && f.hdr.sizeStrings <= f.hdr.totalsize && RsvKept(f.hdr, f.Buf(), f.hdr, f.Buf())
  {
    hide Denotes;
  }

  lemma {:induction false} LogHasNoEnd(ops: seq<Op>, errs: seq<int>)
    requires |ops| == |errs|
    ensures forall i :: 0 <= i < |Log(ops, errs)| ==> !Log(ops, errs)[i].End?
  {
    if ops != [] {
      LogHasNoEnd(ops[..|ops| - 1], errs[..|ops| - 1]);
    }
  }

  /** Reserve entries one after the other. */
  function Joined(entries: seq<seq<byte>>): seq<byte> {
    if entries == [] then [] else Joined(entries[..|entries| - 1]) + entries[|entries| - 1]
  }

  /** The buffer is ready for reserve entries, or for their end. */
  ghost predicate Reserving(f: Fdt)
    reads f
  {
    && f.Mapped() && Layout(f.hdr) && f.hdr.magic == FDT_SW_MAGIC && f.hdr.offStrings == 0
    && f.hdr.sizeStruct == f.hdr.sizeStrings == 0
  }

  /** Any number of reserve entries, up to the first that does not fit. */
  method AddReserves(f: Fdt, entries: seq<seq<byte>>) returns (err: int)
    requires Reserving(f) && forall i :: 0 <= i < |entries| ==> |entries[i]| == 16
    modifies f`hdr, f.mem
    ensures Confined(f) && Reserving(f) && (err == 0 || err == -ERR_NOSPACE)
    ensures err == 0 ==> RsvBlock(f.hdr, f.Buf()) == old(RsvBlock(f.hdr, f.Buf())) + Joined(entries)
  {
    ghost var r := RsvBlock(f.hdr, f.Buf());
    assert r + [] == r;
    for k := 0 to |entries|
      invariant Confined(f) && Reserving(f) && f.hdr.totalsize == old(f.hdr.totalsize)
      invariant RsvBlock(f.hdr, f.Buf()) == r + Joined(entries[..k])
    {
      err := AddReserve(f, entries[k]);
      if err != 0 {
        return;
      }
      assert entries[..k + 1][..k] == entries[..k];
      ghost var j := Joined(entries[..k]);
      assert r + j + entries[k] == r + (j + entries[k]);
    }
    assert entries[..|entries|] == entries;
    err := 0;
  }

  /** The writer from creation to the finished blob: it says the calls that
      succeeded, and its reserve map holds the entries and their terminator. */
  method WriteBlob(mem: array<byte>, base: nat, bufsize: nat, flags: u32, entries: seq<seq<byte>>, ops: seq<Op>)
    returns (err: int, f: Fdt?, errs: seq<int>)
    requires base + bufsize <= mem.Length && bufsize < TWO31
    requires forall i :: 0 <= i < |entries| ==> |entries[i]| == 16
    requires forall i :: 0 <= i < |ops| && ops[i].OpProp? ==> |ops[i].value| < TWO31
    requires forall i :: 0 <= i < |ops| && ops[i].OpResize? ==>
              ops[i].base + ops[i].size <= mem.Length && ops[i].size < TWO31
    modifies mem
    ensures err == 0 ==> f != null && fresh(f) && f.mem == mem && f.Mapped() && |errs| == |ops|
    ensures err == OVERLONG ==> |errs| < |ops| && ops[|errs|].OpProp?
    ensures err == 0 ==> Complete(f.hdr, f.Buf(), Log(ops, errs) + [End])
    ensures err == 0 ==> f.hdr.totalsize == f.hdr.offStrings + f.hdr.sizeStrings
    ensures err == 0 ==> f.hdr.offRsvmap <= f.hdr.offStruct <= f.hdr.totalsize
    ensures err == 0 ==> RsvBlock(f.hdr, f.Buf()) == Joined(entries) + seq(16, _ => 0)
    ensures err == 0 ==> (RwProbe(f.hdr) == 0 <==> f.hdr.totalsize < TWO31 - 1)
  {
    hide Holds, Complete, Denotes, RwProbe;
    errs := [];
    err, f := Create(mem, base, bufsize, flags);
    if err != 0 {
      return;
    }
    assert RsvBlock(f.hdr, f.Buf()) == [];
    err := AddReserves(f, entries);
    if err != 0 {
      return;
    }
    assert RsvBlock(f.hdr, f.Buf()) == Joined(entries);
    err := FinishReserve(f);
    if err != 0 {
      return;
    }
    ghost var h, b := f.hdr, f.Buf();
    errs := Replay(f, ops);
    if |errs| < |ops| {
      return OVERLONG, f, errs;
    }
    assert ops[..|ops|] == ops;
    LogHasNoEnd(ops, errs);
    ghost var h1, b1 := f.hdr, f.Buf();
    err := Finish(f, Log(ops, errs));
    if err == 0 {
      RsvKeptTrans(h, b, h1, b1, f.hdr, f.Buf());
      RsvKeptBlock(h, b, f.hdr, f.Buf());
      RwComplete(f.hdr, f.Buf(), Log(ops, errs) + [End]);
    }
  }
}
