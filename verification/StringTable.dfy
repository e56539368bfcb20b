/** The strings block: NUL-terminated property names named by byte offset. */
module StringTable {
  import opened Bytes
  import opened Tokens
  import opened Blob

  /** The name at an offset, if a terminator follows it inside the block. */
  function StringAt(strs: seq<byte>, off: int): (r: Option<seq<byte>>)
    ensures r.Some? ==> 0 <= off && 0 !in r.value && off + |r.value| < |strs|
  {
    if 0 <= off < |strs| && FindNul(strs, off) < |strs|
    then Some(strs[off..FindNul(strs, off)]) else None
  }

  lemma StringAtParts(strs: seq<byte>, off: int, s: seq<byte>)
    requires StringAt(strs, off) == Some(s)
    ensures 0 <= off && off + |s| < |strs| && 0 !in s
    ensures strs[off..off + |s|] == s && strs[off + |s|] == 0
  {
  }

  /** An occurrence of a name with its terminator is that name. */
  lemma StringAtIs(strs: seq<byte>, off: nat, s: CStr)
    requires off + |s| + 1 <= |strs| && strs[off..off + |s| + 1] == s + [0]
    ensures StringAt(strs, off) == Some(s)
  {
    var t := strs[off..off + |s| + 1];
    assert strs[off + |s|] == t[|s|] == 0;
    assert strs[off..off + |s|] == t[..|s|] == s;
    FindNulUnique(strs, off, off + |s|);
  }

  /** Names stay readable when the block grows at either end. */
  lemma StringAtGrow(pre: seq<byte>, strs: seq<byte>, post: seq<byte>, off: int)
    requires StringAt(strs, off).Some?
    ensures StringAt(pre + strs + post, |pre| + off) == StringAt(strs, off)
  {
    var s := StringAt(strs, off).value;
    var big := pre + strs + post;
    var at := |pre| + off;
    assert big[at + |s|] == strs[off + |s|] == 0;
    assert big[at..at + |s|] == strs[off..off + |s|] == s;
    FindNulUnique(big, at, at + |s|);
  }

  /** The name occurs at `q` together with its terminator. */
  predicate Occurs(tab: seq<byte>, s: seq<byte>, q: nat) {
    q + |s| + 1 <= |tab| && tab[q..q + |s| + 1] == s + [0]
  }

  predicate HasName(tab: seq<byte>, s: seq<byte>) {
    exists q :: 0 <= q <= |tab| && Occurs(tab, s, q)
  }

  /** fdt_find_string_: the first place where the name occurs with its terminator. */
  method FindString(tab: seq<byte>, s: CStr) returns (r: Option<nat>)
    ensures r.Some? ==> Occurs(tab, s, r.value) && forall q :: 0 <= q < r.value ==> !Occurs(tab, s, q)
    ensures r.None? ==> forall q: nat :: !Occurs(tab, s, q)
  {
    var len := |s| + 1;
    var last := |tab| - len;
    var p := 0;
    while p <= last
      invariant 0 <= p && (p <= last + 1 || p == 0)
      invariant forall q :: 0 <= q < p ==> !Occurs(tab, s, q)
    {
      if tab[p..p + len] == s + [0] {
        return Some(p);
      }
      p := p + 1;
    }
    return None;
  }

  /** A raw token stands for a named one when its label, shifted by `bias`,
      names the property in the strings block.  The sequential writer counts
      offsets back from the end of the block, a finished blob from its start. */
  predicate Means(t: RawToken, c: Token<seq<byte>>, strs: seq<byte>, bias: int) {
    match t
    case Prop(key, v) => c.Prop? && c.value == v && StringAt(strs, Int32(key) + bias) == Some(c.key)
    case BeginNode(n) => c == BeginNode(n)
    case EndNode => c == EndNode
    case Nop => c == Nop
    case End => c == End
  }

  predicate AllMean(ts: seq<RawToken>, cs: seq<Token<seq<byte>>>, strs: seq<byte>, bias: int) {
    |ts| == |cs| && forall i :: 0 <= i < |ts| ==> Means(ts[i], cs[i], strs, bias)
  }

  /** What a structure block says, given the strings block. */
  predicate Denotes(s: seq<byte>, cs: seq<Token<seq<byte>>>, strs: seq<byte>, bias: int) {
    Parse(s).Some? && AllMean(Parse(s).value, cs, strs, bias)
  }

  /** A block says at most one thing. */
  lemma DenotesUnique(s: seq<byte>, cs: seq<Token<seq<byte>>>, ds: seq<Token<seq<byte>>>, strs: seq<byte>, bias: int)
    requires Denotes(s, cs, strs, bias) && Denotes(s, ds, strs, bias)
    ensures cs == ds
  {
    hide Parse;
    hide StringAt;
    hide Int32;
    var ts := Parse(s).value;
    forall i | 0 <= i < |cs|
      ensures cs[i] == ds[i]
    {
      assert Means(ts[i], cs[i], strs, bias) && Means(ts[i], ds[i], strs, bias);
    }
  }

  lemma AllMeanGrow(ts: seq<RawToken>, cs: seq<Token<seq<byte>>>, pre: seq<byte>, strs: seq<byte>, post: seq<byte>,
                    bias: int)
    requires AllMean(ts, cs, strs, bias)
    ensures AllMean(ts, cs, pre + strs + post, |pre| + bias)
  {
    hide StringAt;
    hide Int32;
    forall i | 0 <= i < |ts|
      ensures Means(ts[i], cs[i], pre + strs + post, |pre| + bias)
    {
      assert Means(ts[i], cs[i], strs, bias);
      if ts[i].Prop? {
        StringAtGrow(pre, strs, post, Int32(ts[i].key) + bias);
      }
    }
  }

  lemma DenotesGrow(s: seq<byte>, cs: seq<Token<seq<byte>>>, pre: seq<byte>, strs: seq<byte>, post: seq<byte>,
                    bias: int)
    requires Denotes(s, cs, strs, bias)
    ensures Denotes(s, cs, pre + strs + post, |pre| + bias)
  {
    hide Parse;
    AllMeanGrow(Parse(s).value, cs, pre, strs, post, bias);
  }

  /** Appending a block of one token appends what it means. */
  lemma DenotesAppend(s: seq<byte>, cs: seq<Token<seq<byte>>>, strs: seq<byte>, bias: int,
                      piece: seq<byte>, t: RawToken, c: Token<seq<byte>>)
    requires Denotes(s, cs, strs, bias)
    requires Parse(piece) == Some([t]) && Means(t, c, strs, bias)
    ensures Denotes(s + piece, cs + [c], strs, bias)
  {
    hide Parse;
    hide Means;
    ParseConcat(s, Parse(s).value, piece, [t]);
  }

  // ---- blocks of one token, as the writers lay them out

  lemma WordPiece(p: seq<byte>, t: RawToken)
    requires t == EndNode || t == Nop || t == End
    requires |p| == 4 && Ld32(p, 0) == t.Tag()
    ensures Parse(p) == Some([t])
  {
    assert HeadToken(p) == Tok(t);
    ParseOne(p, t);
  }

  lemma BeginPiece(p: seq<byte>, name: CStr)
    requires |p| == 4 + Align4(|name| + 1) && Ld32(p, 0) == FDT_BEGIN_NODE
    requires p[4..4 + |name| + 1] == name + [0]
    ensures Parse(p) == Some([BeginNode(name)])
  {
    var q := p[4..4 + |name| + 1];
    assert p[4 + |name|] == q[|name|] == 0;
    assert p[4..4 + |name|] == q[..|name|] == name;
    FindNulUnique(p, 4, 4 + |name|);
    assert HeadToken(p) == Tok(BeginNode(name));
    ParseOne(p, BeginNode(name));
  }

  lemma PropPiece(p: seq<byte>, key: u32, v: seq<byte>)
    requires |p| == 12 + Align4(|v|) && Ld32(p, 0) == FDT_PROP
    requires Ld32(p, 4) == |v| && Ld32(p, 8) == key && p[12..12 + |v|] == v
    ensures Parse(p) == Some([Prop(key, v)])
  {
    assert HeadToken(p) == Tok(Prop(key, v));
    ParseOne(p, Prop(key, v));
  }

  // ---- laying out one token inside a blob

  lemma LdPatch(b: seq<byte>, off: nat, w: u32)
    requires off + 4 <= |b|
    ensures Ld32(Patch(b, off, Be32(w)), off) == w
  {
    hide Be32;
    assert Patch(b, off, Be32(w))[off..off + 4] == Be32(w)[0..4];
    Ld32Same(Patch(b, off, Be32(w)), off, Be32(w), 0);
  }

  lemma LdPatchOther(b: seq<byte>, off: nat, t: seq<byte>, at: nat)
    requires off + |t| <= |b| && at + 4 <= |b| && (at + 4 <= off || off + |t| <= at)
    ensures Ld32(Patch(b, off, t), at) == Ld32(b, at)
  {
    assert Patch(b, off, t)[at..at + 4] == b[at..at + 4];
    Ld32Same(Patch(b, off, t), at, b, at);
  }

  /** The bytes before and after a region are as they were. */
  predicate SameAround(b: seq<byte>, c: seq<byte>, at: nat, n: nat) {
    |b| == |c| && at + n <= |b| && b[..at] == c[..at] && b[at + n..] == c[at + n..]
  }

  lemma PatchAround(b: seq<byte>, off: nat, t: seq<byte>, at: nat, n: nat)
    requires at <= off && off + |t| <= at + n <= |b|
    ensures SameAround(b, Patch(b, off, t), at, n)
  {
  }

  method PutWord(f: Fdt, at: nat, t: RawToken)
    requires t == EndNode || t == Nop || t == End
    requires f.Mapped() && at + 4 <= f.hdr.totalsize
    modifies f.mem
    ensures Confined(f) && SameAround(old(f.Buf()), f.Buf(), at, 4)
    ensures Parse(f.Buf()[at..at + 4]) == Some([t])
  {
    ghost var b := f.Buf();
    Store(f, at, Be32(t.Tag()));
    LdPatch(b, at, t.Tag());
    var piece := f.Buf()[at..at + 4];
    Ld32Same(f.Buf(), at, piece, 0);
    WordPiece(piece, t);
  }

  method PutBegin(f: Fdt, at: nat, name: CStr)
    requires f.Mapped() && at + 4 + Align4(|name| + 1) <= f.hdr.totalsize
    modifies f.mem
    ensures Confined(f) && SameAround(old(f.Buf()), f.Buf(), at, 4 + Align4(|name| + 1))
    ensures Parse(f.Buf()[at..at + 4 + Align4(|name| + 1)]) == Some([BeginNode(name)])
  {
    hide Be32;
    hide Patch;
    hide Ld32;
    hide Align4;
    hide Parse;
    ghost var n := 4 + Align4(|name| + 1);
    ghost var b := f.Buf();
    Store(f, at, Be32(FDT_BEGIN_NODE));
    ghost var b1 := f.Buf();
    PatchAround(b, at, Be32(FDT_BEGIN_NODE), at, n);
    LdPatch(b, at, FDT_BEGIN_NODE);
    Store(f, at + 4, name + [0]);
    PatchAround(b1, at + 4, name + [0], at, n);
    LdPatchOther(b1, at + 4, name + [0], at);
    PatchHere(b1, at + 4, name + [0]);
    BeginLayout(f.Buf(), at, name);
  }

  lemma BeginLayout(b: seq<byte>, at: nat, name: CStr)
    requires at + 4 + Align4(|name| + 1) <= |b|
    requires Ld32(b, at) == FDT_BEGIN_NODE && b[at + 4..at + 4 + |name| + 1] == name + [0]
    ensures Parse(b[at..at + 4 + Align4(|name| + 1)]) == Some([BeginNode(name)])
  {
    var n := 4 + Align4(|name| + 1);
    SliceSlice(b, at, at + n, 0, 4);
    SliceSlice(b, at, at + n, 4, 4 + |name| + 1);
    Ld32Same(b, at, b[at..at + n], 0);
    BeginPiece(b[at..at + n], name);
  }

  method PutProp(f: Fdt, at: nat, key: u32, v: seq<byte>)
    requires f.Mapped() && at + 12 + Align4(|v|) <= f.hdr.totalsize < TWO31
    modifies f.mem
    ensures Confined(f) && SameAround(old(f.Buf()), f.Buf(), at, 12 + Align4(|v|))
    ensures Parse(f.Buf()[at..at + 12 + Align4(|v|)]) == Some([Prop(key, v)])
  {
    hide Be32;
    hide Patch;
    hide Ld32;
    ghost var n := 12 + Align4(|v|);
    ghost var b := f.Buf();
    Store(f, at, Be32(FDT_PROP));
    ghost var b1 := f.Buf();
    PatchAround(b, at, Be32(FDT_PROP), at, n);
    Store(f, at + 8, Be32(key));
    ghost var b2 := f.Buf();
    PatchAround(b1, at + 8, Be32(key), at, n);
    Store(f, at + 4, Be32(|v|));
    ghost var b3 := f.Buf();
    PatchAround(b2, at + 4, Be32(|v|), at, n);
    Store(f, at + 12, v);
    PatchAround(b3, at + 12, v, at, n);
    PatchHere(b3, at + 12, v);
    PropWords(b, b1, b2, b3, f.Buf(), at, key, v);
    PropLayout(f.Buf(), at, key, v);
  }

  lemma PropWords(b: seq<byte>, b1: seq<byte>, b2: seq<byte>, b3: seq<byte>, b4: seq<byte>, at: nat, key: u32,
                  v: seq<byte>)
    requires at + 12 + |v| <= |b| && |v| < TWO31
    requires b1 == Patch(b, at, Be32(FDT_PROP)) && b2 == Patch(b1, at + 8, Be32(key))
    requires b3 == Patch(b2, at + 4, Be32(|v|)) && b4 == Patch(b3, at + 12, v)
    ensures Ld32(b4, at) == FDT_PROP && Ld32(b4, at + 4) == |v| && Ld32(b4, at + 8) == key
  {
    hide Be32;
    hide Ld32;
    hide Patch;
    LdPatch(b, at, FDT_PROP);
    LdPatchOther(b1, at + 8, Be32(key), at);
    LdPatch(b1, at + 8, key);
    LdPatchOther(b2, at + 4, Be32(|v|), at);
    LdPatchOther(b2, at + 4, Be32(|v|), at + 8);
    LdPatch(b2, at + 4, |v|);
    LdPatchOther(b3, at + 12, v, at);
    LdPatchOther(b3, at + 12, v, at + 4);
    LdPatchOther(b3, at + 12, v, at + 8);
  }

  lemma PropLayout(b: seq<byte>, at: nat, key: u32, v: seq<byte>)
    requires at + 12 + Align4(|v|) <= |b|
    requires Ld32(b, at) == FDT_PROP && Ld32(b, at + 4) == |v| && Ld32(b, at + 8) == key
    requires b[at + 12..at + 12 + |v|] == v
    ensures Parse(b[at..at + 12 + Align4(|v|)]) == Some([Prop(key, v)])
  {
    hide Ld32;
    var n := 12 + Align4(|v|);
    SliceSlice(b, at, at + n, 0, 4);
    SliceSlice(b, at, at + n, 4, 8);
    SliceSlice(b, at, at + n, 8, 12);
    SliceSlice(b, at, at + n, 12, 12 + |v|);
    Ld32Same(b, at, b[at..at + n], 0);
    Ld32Same(b, at + 4, b[at..at + n], 4);
    Ld32Same(b, at + 8, b[at..at + n], 8);
    PropPiece(b[at..at + n], key, v);
  }
}
