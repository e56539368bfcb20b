/** Finding, adding and removing subnodes. */
module Nodes {
  import opened Bytes
  import opened Tokens
  import opened Blob
  import opened StringTable
  import opened Reader
  import opened Hedges
  import opened TreeRead
  import opened Splice
  import opened ReadWrite
  import opened Probe

  const AT_SIGN: byte := 0x40

  /** fdt_nodename_eq_: equal, or equal up to a unit address that was not asked for. */
  predicate NameMatches(p: seq<byte>, s: seq<byte>) {
    && |s| <= |p| && p[..|s|] == s
    && (|p| == |s| || (AT_SIGN !in s && p[|s|] == AT_SIGN))
  }

  /** A node name answers to what is asked for: it is that, or that and a unit
      address, when none was asked for. */
  ghost predicate Answers(p: seq<byte>, s: seq<byte>) {
    p == s || (0x40 !in s && exists unit: seq<byte> :: p == s + [0x40] + unit)
  }

  lemma MatchesAnswers(p: seq<byte>, s: seq<byte>)
    ensures NameMatches(p, s) <==> Answers(p, s)
  {
    if NameMatches(p, s) && |p| > |s| {
      assert p == s + [0x40] + p[|s| + 1..];
    }
  }

  /** A child of that name at a position of the spelling. */
  predicate ChildAt(b: Hedge, i: int, name: seq<byte>) {
    match b
    case Nil => false
    case PropH(_, _, r) => ChildAt(r, i - 1, name)
    case NopH(r) => ChildAt(r, i - 1, name)
    case NodeH(n, c, r) => (i == 0 && n == name) || ChildAt(r, i - 2 - |Flat(c)|, name)
  }

  /** The first child that answers stands there. */
  ghost predicate FirstToAnswer(b: Hedge, s: seq<byte>, i: int) {
    && (exists n :: ChildAt(b, i, n) && Answers(n, s))
    && forall j, n :: j < i && ChildAt(b, j, n) ==> !Answers(n, s)
  }

  ghost predicate NoneAnswers(b: Hedge, s: seq<byte>) {
    forall j, n :: ChildAt(b, j, n) ==> !Answers(n, s)
  }

  lemma {:induction false} ChildInside(b: Hedge, i: int, n: seq<byte>)
    requires ChildAt(b, i, n)
    ensures 0 <= i < |Flat(b)| && Flat(b)[i] == BeginNode(n)
    decreases b
  {
    match b
    case PropH(_, _, r) => ChildInside(r, i - 1, n);
    case NopH(r) => ChildInside(r, i - 1, n);
    case NodeH(_, c, r) =>
      if ChildAt(r, i - 2 - |Flat(c)|, n) {
        ChildInside(r, i - 2 - |Flat(c)|, n);
      }
  }

  /** Tokens before the rest of a body that hold no child that answers. */
  lemma FindLater(b: Hedge, r: Hedge, s: seq<byte>, d: nat)
    requires forall j, n :: ChildAt(b, j, n) ==> ChildAt(r, j - d, n) || !Answers(n, s)
    requires forall j, n :: ChildAt(r, j, n) ==> ChildAt(b, j + d, n)
    ensures NoneAnswers(r, s) ==> NoneAnswers(b, s)
    ensures forall i :: FirstToAnswer(r, s, i) ==> FirstToAnswer(b, s, i + d)
    ensures !NoneAnswers(r, s) ==> !NoneAnswers(b, s)
  {
    hide ChildAt, Answers;
    forall i | FirstToAnswer(r, s, i)
      ensures FirstToAnswer(b, s, i + d)
    {
      var n :| ChildAt(r, i, n) && Answers(n, s);
      assert ChildAt(b, i + d, n);
    }
    if !NoneAnswers(r, s) {
      var j, n :| ChildAt(r, j, n) && Answers(n, s);
      assert ChildAt(b, j + d, n);
    }
  }

  /** The child found is the first that answers, and none is found when none does. */
  lemma {:induction false} FindChildIff(b: Hedge, s: seq<byte>)
    ensures match FindChild(b, s)
            case None => NoneAnswers(b, s)
            case Some(i) => FirstToAnswer(b, s, i) && !NoneAnswers(b, s)
    decreases b
  {
    hide Answers, NameMatches, FirstToAnswer, NoneAnswers, Flat;
    match b
    case Nil => NilAnswers(s);
    case PropH(_, _, r) => FindChildIff(r, s); FindLater(b, r, s, 1);
    case NopH(r) => FindChildIff(r, s); FindLater(b, r, s, 1);
    case NodeH(n, c, r) =>
      MatchesAnswers(n, s);
      if NameMatches(n, s) {
        HeadAnswers(b, s);
      } else {
        FindChildIff(r, s);
        FindLater(b, r, s, 2 + |Flat(c)|);
      }
  }

  lemma NilAnswers(s: seq<byte>)
    ensures NoneAnswers(Nil, s)
  {
  }

  lemma HeadAnswers(b: Hedge, s: seq<byte>)
    requires b.NodeH? && Answers(b.name, s)
    ensures FirstToAnswer(b, s, 0) && !NoneAnswers(b, s)
  {
    hide Answers, Flat;
    assert ChildAt(b, 0, b.name);
    hide ChildAt;
    forall j, m | j < 0 && ChildAt(b, j, m)
      ensures false
    {
      ChildInside(b, j, m);
    }
  }

  /** First child with a matching name, as a position in the spelling. */
  function FindChild(b: Hedge, s: seq<byte>): (r: Option<nat>)
    ensures r.Some? ==> r.value < |Flat(b)|
  {
    match b
    case Nil => None
    case PropH(_, _, r) => Shift(FindChild(r, s), 1)
    case NopH(r) => Shift(FindChild(r, s), 1)
    case NodeH(n, c, r) => if NameMatches(n, s) then Some(0) else Shift(FindChild(r, s), 2 + |Flat(c)|)
  }

  function Shift(x: Option<nat>, n: nat): Option<nat> {
    match x
    case None => None
    case Some(i) => Some(i + n)
  }

  /** The same on tokens, at depth `d` below the parent. */
  function SubIndex(cs: seq<Call>, i: nat, d: nat, s: seq<byte>): (r: Option<nat>)
    requires i <= |cs|
    ensures r.Some? ==> i <= r.value < |cs|
    decreases |cs| - i
  {
    if i == |cs| then None else
    match cs[i]
    case BeginNode(n) => if d == 0 && NameMatches(n, s) then Some(i) else SubIndex(cs, i + 1, d + 1, s)
    case EndNode => if d == 0 then None else SubIndex(cs, i + 1, d - 1, s)
    case End => None
    case _ => SubIndex(cs, i + 1, d, s)
  }

  /** Whole hedges below the children are passed over. */
  lemma {:induction false} SubOverHedge(cs: seq<Call>, i: nat, t: Hedge, d: nat, s: seq<byte>)
    requires i + |Flat(t)| <= |cs| && Lies(cs, i, Flat(t)) && d > 0
    ensures SubIndex(cs, i, d, s) == SubIndex(cs, i + |Flat(t)|, d, s)
    decreases t
  {
    hide Lies, NameMatches;
    assert Flat(Nil) == [];
    hide Flat;
    match t
    case Nil =>
    case PropH(k, v, r) =>
      LiesProp(cs, i, k, v, r);
      SubOverHedge(cs, i + 1, r, d, s);
    case NopH(r) =>
      LiesNop(cs, i, r);
      SubOverHedge(cs, i + 1, r, d, s);
    case NodeH(n, b, r) =>
      LiesNode(cs, i, n, b, r);
      SubOverHedge(cs, i + 1, b, d + 1, s);
      SubOverHedge(cs, i + 2 + |Flat(b)|, r, d, s);
  }

  /** Tokens and tree agree on the child found. */
  lemma {:induction false} SubInBody(cs: seq<Call>, i: nat, b: Hedge, s: seq<byte>)
    requires i + |Flat(b)| < |cs| && Lies(cs, i, Flat(b)) && cs[i + |Flat(b)|] == EndNode
    ensures SubIndex(cs, i, 0, s) == Shift(FindChild(b, s), i)
    decreases b
  {
    hide Lies, NameMatches;
    assert Flat(Nil) == [];
    hide Flat;
    match b
    case Nil =>
    case PropH(k, v, r) =>
      LiesProp(cs, i, k, v, r);
      SubInBody(cs, i + 1, r, s);
    case NopH(r) =>
      LiesNop(cs, i, r);
      SubInBody(cs, i + 1, r, s);
    case NodeH(n, c, r) =>
      LiesNode(cs, i, n, c, r);
      if !NameMatches(n, s) {
        SubPastChild(cs, i, n, c, s);
        SubInBody(cs, i + 2 + |Flat(c)|, r, s);
      }
  }

  lemma SubPastChild(cs: seq<Call>, i: nat, n: seq<byte>, c: Hedge, s: seq<byte>)
    requires i + 1 + |Flat(c)| < |cs| && cs[i] == BeginNode(n) && Lies(cs, i + 1, Flat(c))
    requires cs[i + 1 + |Flat(c)|] == EndNode
    requires !NameMatches(n, s)
    ensures SubIndex(cs, i, 0, s) == SubIndex(cs, i + 2 + |Flat(c)|, 0, s)
  {
    hide Lies, NameMatches, Flat;
    SubOverHedge(cs, i + 1, c, 1, s);
  }

  lemma SubAtNode(t: Hedge, k: nat, s: seq<byte>)
    requires IsNode(t, k)
    ensures SubIndex(Flat(t) + [End], k + 1, 0, s) == Shift(FindChild(BodyAt(t, k), s), k + 1)
  {
    hide SubIndex, FindChild, Lies;
    NodeTokens(t, k);
    SubInBody(Flat(t) + [End], k + 1, BodyAt(t, k), s);
  }

  /** One step of fdt_next_node inside the search. */
  lemma {:induction false} SubForward(cs: seq<Call>, i: nat, d: nat, s: seq<byte>)
    requires i <= |cs|
    ensures match Forward(cs, i, d)
            case AtNode(j, e) =>
              e > 0 && SubIndex(cs, i, d, s) ==
                if e == 1 && NameMatches(cs[j].name, s) then Some(j) else SubIndex(cs, j + 1, e, s)
            case Closed(_, e) => e < 0 && SubIndex(cs, i, d, s) == None
            case Ran => SubIndex(cs, i, d, s) == None
    decreases |cs| - i
  {
    hide NameMatches;
    if i < |cs| {
      match cs[i]
      case EndNode => if d > 0 { SubForward(cs, i + 1, d - 1, s); }
      case Prop(_, _) => SubForward(cs, i + 1, d, s);
      case Nop => SubForward(cs, i + 1, d, s);
      case _ =>
    }
  }

  /** fdt_nodename_eq_ at a node. */
  method NodeNameEq(f: Fdt, offset: nat, s: seq<byte>, ghost cs: seq<Call>, ghost k: nat) returns (eq: bool)
    requires f.Mapped() && Complete(f.hdr, f.Buf(), cs) && Points(f.hdr, f.Buf(), cs, k, offset) && cs[k].BeginNode?
    ensures eq == NameMatches(cs[k].name, s) == Answers(cs[k].name, s)
  {
    hide Parse, NextTag, Complete, ReadsProp, FindNul, Answers;
    MatchesAnswers(cs[k].name, s);
    At(f.hdr, f.Buf(), cs, k);
    var p := NameBytes(f.hdr, f.Buf(), offset);
    if |p| < |s| || p[..|s|] != s {
      return false;
    }
    return |p| == |s| || (AT_SIGN !in s && p[|s|] == AT_SIGN);
  }

  /** The search loop of fdt_subnode_offset_namelen. */
  method SubFrom(f: Fdt, from: nat, s: seq<byte>, ghost cs: seq<Call>, ghost k: nat) returns (r: int)
    requires f.Mapped() && Complete(f.hdr, f.Buf(), cs) && Ended(cs)
    requires Points(f.hdr, f.Buf(), cs, k, from) && cs[k].BeginNode?
    ensures match SubIndex(cs, k + 1, 0, s)
            case Some(j) => Points(f.hdr, f.Buf(), cs, j, r) && cs[j].BeginNode?
            case None => r == -ERR_NOTFOUND
  {
    hide Parse, Complete, SubIndex, Forward, NameMatches;
    ghost var h, b := f.hdr, f.Buf();
    ghost var want := SubIndex(cs, k + 1, 0, s);
    var offset: int := from;
    var depth := 0;
    ghost var i := k;
    while offset >= 0 && depth >= 0
      invariant offset >= 0 && depth >= 0 ==> k <= i && Points(h, b, cs, i, offset) && cs[i].BeginNode?
      invariant offset >= 0 && depth >= 0 ==>
        want == if depth == 1 && NameMatches(cs[i].name, s) then Some(i) else SubIndex(cs, i + 1, depth, s)
      invariant offset < 0 || depth < 0 ==> want == None && (offset < 0 ==> offset == -ERR_NOTFOUND)
      decreases offset >= 0 && depth >= 0, |cs| - i
    {
      if depth == 1 {
        var eq := NodeNameEq(f, offset, s, cs, i);
        if eq {
          return offset;
        }
      }
      SubForward(cs, i + 1, depth, s);
      ghost var stop := Forward(cs, i + 1, depth);
      offset, depth := NextNode(f, offset, depth, cs, i);
      i := if stop.Ran? then |cs| else stop.i;
    }
    if depth < 0 {
      return -ERR_NOTFOUND;
    }
    return offset;
  }

  /** fdt_subnode_offset on a tree: the first child whose name matches. */
  method SubnodeOffset(f: Fdt, offset: int, s: seq<byte>, ghost t: Hedge, ghost k: nat) returns (r: int)
    requires HasTree(f, t) && Arg(f.hdr, f.Buf(), Flat(t) + [End], k, offset)
    ensures RoProbe(f.hdr) < 0 ==> r == RoProbe(f.hdr)
    ensures RoProbe(f.hdr) >= 0 && !NodeArg(f, t, k, offset) ==> r == if offset < 0 then offset else -ERR_BADOFFSET
    ensures RoProbe(f.hdr) >= 0 && NodeArg(f, t, k, offset) ==>
              match FindChild(BodyAt(t, k), s)
              case Some(x) => NodeArg(f, t, k + 1 + x, r) && r >= 0 && FirstToAnswer(BodyAt(t, k), s, x)
              case None => r == -1 && NoneAnswers(BodyAt(t, k), s)
  {
    hide Parse, Complete, SubIndex, FindChild, RoProbe, BodyAt, FirstToAnswer, NoneAnswers;
    if RoProbe(f.hdr) < 0 {
      return RoProbe(f.hdr);
    }
    ghost var cs := Flat(t) + [End];
    PointsAligned(f.hdr, f.Buf(), cs, k, offset);
    if offset < 0 {
      return offset;
    }
    var next := CheckNodeOffset(f, offset, cs, k);
    if next < 0 {
      return next;
    }
    r := SubFrom(f, offset, s, cs, k);
    SubAtNode(t, k, s);
    FindChildIff(BodyAt(t, k), s);
  }

  // ---- fdt_add_subnode

  /** The body with an empty node after its properties. */
  function WithChild(b: Hedge, name: seq<byte>): Hedge {
    match b
    case PropH(k, v, r) => PropH(k, v, WithChild(r, name))
    case NopH(r) => NopH(WithChild(r, name))
    case _ => NodeH(name, Nil, b)
  }

  /** How many properties and no-ops come first. */
  function Lead(b: Hedge): (n: nat)
    ensures n <= |Flat(b)|
  {
    match b
    case PropH(_, _, r) => 1 + Lead(r)
    case NopH(r) => 1 + Lead(r)
    case _ => 0
  }

  lemma {:induction false} FlatWithChild(b: Hedge, name: seq<byte>)
    ensures Flat(WithChild(b, name)) == Flat(b)[..Lead(b)] + [BeginNode(name), EndNode] + Flat(b)[Lead(b)..]
  {
    match b
    case PropH(k, v, r) =>
      FlatWithChild(r, name);
      LeadStep(Prop(k, v), Flat(r), Lead(r), [BeginNode(name), EndNode]);
    case NopH(r) =>
      FlatWithChild(r, name);
      LeadStep(Nop, Flat(r), Lead(r), [BeginNode(name), EndNode]);
    case _ =>
      var x: seq<Call> := [BeginNode(name)];
      assert x + Flat(Nil) + [EndNode] == [BeginNode(name), EndNode];
  }

  lemma LeadStep(x: Call, f: seq<Call>, n: nat, m: seq<Call>)
    requires n <= |f|
    ensures [x] + (f[..n] + m + f[n..]) == ([x] + f)[..n + 1] + m + ([x] + f)[n + 1..]
  {
    assert ([x] + f)[..n + 1] == [x] + f[..n] && ([x] + f)[n + 1..] == f[n..];
  }

  /** The new child is what a lookup of its name finds. */
  lemma {:induction false} FindNewChild(b: Hedge, name: seq<byte>)
    requires FindChild(b, name).None?
    ensures FindChild(WithChild(b, name), name) == Some(Lead(b))
  {
    match b
    case PropH(_, _, r) => FindNewChild(r, name);
    case NopH(r) => FindNewChild(r, name);
    case _ =>
  }

  /** First token at or after `i` that is neither a property nor a no-op. */
  function PropsEnd(cs: seq<Call>, i: nat): (j: nat)
    requires i <= |cs|
    ensures i <= j <= |cs|
    decreases |cs| - i
  {
    if i < |cs| && (cs[i].Prop? || cs[i].Nop?) then PropsEnd(cs, i + 1) else i
  }

  lemma {:induction false} PropsEndBody(cs: seq<Call>, i: nat, b: Hedge)
    requires i + |Flat(b)| < |cs| && Lies(cs, i, Flat(b)) && cs[i + |Flat(b)|] == EndNode
    ensures PropsEnd(cs, i) == i + Lead(b) < |cs|
    decreases b
  {
    hide Lies;
    match b
    case Nil =>
    case PropH(k, v, r) =>
      LiesProp(cs, i, k, v, r);
      PropsEndBody(cs, i + 1, r);
    case NopH(r) =>
      LiesNop(cs, i, r);
      PropsEndBody(cs, i + 1, r);
    case NodeH(n, c, r) =>
      LiesNode(cs, i, n, c, r);
  }

  /** The do-while of fdt_add_subnode_namelen that skips the properties. */
  method SkipProps(f: Fdt, from: nat, ghost cs: seq<Call>, ghost i: nat) returns (offset: int)
    requires f.Mapped() && Complete(f.hdr, f.Buf(), cs) && Points(f.hdr, f.Buf(), cs, i, from)
    requires PropsEnd(cs, i) < |cs|
    ensures Points(f.hdr, f.Buf(), cs, PropsEnd(cs, i), offset)
  {
    hide Parse, NextTag, Complete, ReadsProp, NameBytes;
    ghost var h, b := f.hdr, f.Buf();
    offset := from;
    ghost var j := i;
    At(h, b, cs, j);
    var tag, next := FdtNextTag(f, offset);
    while tag == FDT_PROP || tag == FDT_NOP
      invariant i <= j < |cs| && PropsEnd(cs, j) == PropsEnd(cs, i)
      invariant Points(h, b, cs, j, offset) && (tag, next) == (cs[j].Tag(), Off(h, b, j + 1))
      decreases |cs| - j
    {
      offset := next;
      j := j + 1;
      At(h, b, cs, j);
      tag, next := FdtNextTag(f, offset);
    }
  }

  /** The bytes of an empty node. */
  function NodeSize(name: seq<byte>): nat {
    4 + Align4(|name| + 1) + 4
  }

  /** `s'` is `s` with `n` bytes put in at `q`. */
  predicate WithPart(s: seq<byte>, s': seq<byte>, q: nat, n: nat) {
    q <= |s| && |s'| == |s| + n && s'[..q] == s[..q] && s'[q + n..] == s[q..]
  }

  /** Insert an empty node before token `i`. */
  method InsertNode(f: Fdt, q: nat, name: CStr, ghost cs: seq<Call>, ghost i: nat) returns (err: int)
    requires f.Mapped() && Complete(f.hdr, f.Buf(), cs) && Points(f.hdr, f.Buf(), cs, i, q)
    modifies f`hdr, f.mem
    ensures Confined(f) && f.Mapped()
    ensures err == if Room(old(f.hdr), 0, NodeSize(name)) then 0 else -ERR_NOSPACE
    ensures err != 0 ==> f.hdr == old(f.hdr) && f.Buf() == old(f.Buf())
    ensures err == 0 ==> Inserted(old(f.hdr), old(f.Buf()), f.hdr, f.Buf(), cs, i, q, name)
    ensures SameFrame(old(f.hdr), old(f.Buf()), f.hdr, f.Buf())
  {
    hide Parse, Align4, Opened, Denotes, SameAround, Inserted;
    ghost var h, b := f.hdr, f.Buf();
    FrameSelf(h, b, cs);
    TokenInside(h, b, cs, i);
    var n := 4 + Align4(|name| + 1);
    err := SpliceStruct(f, q, 0, n + 4);
    if err != 0 {
      return;
    }
    ghost var h', b1 := f.hdr, f.Buf();
    OpenedSizes(h, b, h', b1, q, 0, n + 4);
    var at := f.hdr.offStruct + q;
    PutBegin(f, at, name);
    ghost var b2 := f.Buf();
    PutWord(f, at + n, EndNode);
    NodeLaid(b1, b2, f.Buf(), at, name, n);
    InsertedNode(h, b, h', b1, f.Buf(), cs, i, q, name);
  }

  lemma NodeLaid(b1: seq<byte>, b2: seq<byte>, b3: seq<byte>, at: nat, name: seq<byte>, n: nat)
    requires at + n + 4 <= |b1| && SameAround(b1, b2, at, n) && SameAround(b2, b3, at + n, 4)
    requires Parse(b2[at..at + n]) == Some([BeginNode(name)]) && Parse(b3[at + n..at + n + 4]) == Some([EndNode])
    ensures SameAround(b1, b3, at, n + 4) && Parse(b3[at..at + n + 4]) == Some([BeginNode(name), EndNode])
  {
    hide Parse;
    PrefixSlice(b2, b3, at + n, 0, at);
    PrefixSlice(b2, b3, at + n, at, at + n);
    SuffixSlice(b1, b2, at + n, at + n + 4, |b1|);
    assert b3[at..at + n + 4] == b3[at..at + n] + b3[at + n..at + n + 4];
    ParseConcat(b3[at..at + n], [BeginNode(name)], b3[at + n..at + n + 4], [EndNode]);
    var x: seq<RawToken> := [BeginNode(name)];
    assert x + [EndNode] == [BeginNode(name), EndNode];
  }

  /** What an insertion leaves: the meaning, the bytes around, the offsets before. */
  predicate Inserted(h: Header, b: seq<byte>, h': Header, b': seq<byte>, cs: seq<Call>, i: nat, q: nat,
                     name: seq<byte>) {
    && i < |cs| && Complete(h, b, cs) && Complete(h', b', cs[..i] + [BeginNode(name), EndNode] + cs[i..])
    && Parsed(h, b, |cs|) && Parsed(h', b', |cs| + 2)
    && (forall x :: 0 <= x <= i ==> Off(h', b', x) == Off(h, b, x))
    && Off(h', b', i) == q && Off(h', b', i + 2) == q + NodeSize(name)
    && WithPart(StructBlock(h, b), StructBlock(h', b'), q, NodeSize(name))
    && StringsBlock(h', b') == StringsBlock(h, b)
    && h' == h.(sizeStruct := h'.sizeStruct, offStrings := h'.offStrings)
    && h'.offStrings == h.offStrings + NodeSize(name)
  }

  lemma InsertedNode(h: Header, b: seq<byte>, h': Header, b1: seq<byte>, b3: seq<byte>, cs: seq<Call>, i: nat, q: nat,
                     name: seq<byte>)
    requires Complete(h, b, cs) && Points(h, b, cs, i, q)
    requires Opened(h, b, h', b1, q, 0, NodeSize(name)) && SameAround(b1, b3, h.offStruct + q, NodeSize(name))
    requires Parse(b3[h.offStruct + q..h.offStruct + q + NodeSize(name)]) == Some([BeginNode(name), EndNode])
    ensures Inserted(h, b, h', b3, cs, i, q, name) && SameFrame(h, b, h', b3)
  {
    hide Parse, Align4, Denotes;
    var n := NodeSize(name);
    OpenedFilled(h, b, h', b1, b3, q, 0, n);
    OpenedBlock(h, b, h', b3, q, 0, n);
    hide Opened, SameAround;
    var us: seq<RawToken> := [BeginNode(name), EndNode];
    var ds: seq<Call> := [BeginNode(name), EndNode];
    PairMeans(name, StringsBlock(h, b));
    var ts := TokensOf(h, b, cs);
    Edited(h, b, cs, ts, i, i, h', b3, us, ds, q, 0, n);
    InsertOffsets(ts, i, us, n);
    OpenedStrings(h, b, h', b3, q, 0, n);
    SpliceParts(StructBlock(h, b), q, b3[h.offStruct + q..h.offStruct + q + n]);
  }

  lemma OpenedStrings(h: Header, b: seq<byte>, h': Header, b': seq<byte>, q: nat, m: nat, n: nat)
    requires Opened(h, b, h', b', q, m, n)
    ensures StringsBlock(h', b') == StringsBlock(h, b)
    ensures h' == h.(sizeStruct := h'.sizeStruct, offStrings := h'.offStrings)
    ensures h'.offStrings == h.offStrings - m + n
  {
  }

  lemma PairMeans(name: seq<byte>, strs: seq<byte>)
    ensures AllMean([BeginNode(name), EndNode], [BeginNode(name), EndNode], strs, 0)
  {
  }

  lemma SpliceParts(s: seq<byte>, q: nat, gap: seq<byte>)
    requires q <= |s|
    ensures WithPart(s, s[..q] + gap + s[q..], q, |gap|)
  {
    ThreeParts(s[..q], gap, s[q..]);
  }

  lemma InsertOffsets(ts: seq<RawToken>, i: nat, us: seq<RawToken>, n: nat)
    requires i <= |ts| && |us| == 2 && n == us[0].Size() + us[1].Size()
    ensures var vs := ts[..i] + us + ts[i..];
            (forall x :: 0 <= x <= i ==> Offset(vs, x) == Offset(ts, x)) && Offset(vs, i + 2) == Offset(ts, i) + n
  {
    var vs := ts[..i] + us + ts[i..];
    forall x | 0 <= x <= i
      ensures Offset(vs, x) == Offset(ts, x)
    {
      assert vs[..x] == ts[..x];
      OffsetPrefix(vs, ts, x);
    }
    assert vs[i] == us[0] && vs[i + 1] == us[1];
    assert Offset(vs, i + 2) == Offset(vs, i + 1) + vs[i + 1].Size();
  }

  /** Token at which fdt_add_subnode puts the new node. */
  function ChildToken(t: Hedge, k: nat): nat
    requires IsNode(t, k)
  {
    k + 1 + Lead(BodyAt(t, k))
  }

  /** An empty node has been put in eight bytes before the structure block, over the
      end of the reserve map, and all that followed has moved up. */
  predicate Astray(h: Header, b: seq<byte>, h': Header, b': seq<byte>, name: seq<byte>) {
    var n, at, end := NodeSize(name), h.offStruct - 8, h.offStrings + h.sizeStrings;
    && 0 <= at <= end && |b| == |b'| == h.totalsize && end + n <= h.totalsize
    && h' == h.(sizeStruct := h'.sizeStruct, offStrings := h'.offStrings)
    && h'.sizeStruct == h.sizeStruct + n && h'.offStrings == h.offStrings + n
    && b'[..at] == b[..at] && Parse(b'[at..at + n]) == Some([BeginNode(name), EndNode])
    && b'[at + n..end + n] == b[at..end]
  }

  /** What fdt_add_subnode_namelen does with the parent -1: the lookup hands that
      number back, which is also the code for a missing child, and fdt_next_tag
      then yields an error code that is taken for an offset. */
  method InsertAstray(f: Fdt, name: CStr, ghost cs: seq<Call>) returns (r: int)
    requires f.Mapped() && Complete(f.hdr, f.Buf(), cs) && RwProbe(f.hdr) == 0
    modifies f`hdr, f.mem
    ensures Confined(f) && f.Mapped()
    ensures r == if Room(old(f.hdr), 0, NodeSize(name)) then -ERR_TRUNCATED else -ERR_NOSPACE
    ensures r == -ERR_NOSPACE ==> f.hdr == old(f.hdr) && f.Buf() == old(f.Buf())
    ensures r == -ERR_TRUNCATED ==> Astray(old(f.hdr), old(f.Buf()), f.hdr, f.Buf(), name)
  {
    hide Parse, Align4, Denotes, SameAround, Astray, NextTag, Patch;
    ghost var h, b := f.hdr, f.Buf();
    NextTagBelow(h, b, -1);
    NextTagBelow(h, b, -8);
    var tag, offset := FdtNextTag(f, -1);
    var next;
    tag, next := FdtNextTag(f, offset);
    var n := 4 + Align4(|name| + 1);
    var at := f.hdr.offStruct + offset;
    var err := SpliceAt(f, at, 0, n + 4);
    if err != 0 {
      return err;
    }
    ghost var b1 := f.Buf();
    f.hdr := f.hdr.(sizeStruct := f.hdr.sizeStruct + n + 4, offStrings := f.hdr.offStrings + n + 4);
    assert f.Buf() == b1;
    PutBegin(f, at, name);
    ghost var b2 := f.Buf();
    PutWord(f, at + n, EndNode);
    NodeLaid(b1, b2, f.Buf(), at, name, n);
    WentAstray(h, b, f.hdr, b1, f.Buf(), name, at, n + 4);
    return offset;
  }

  /** Below the structure block there is no tag. */
  lemma NextTagBelow(h: Header, b: seq<byte>, offset: int)
    requires h.Sane() && |b| == h.totalsize && -TWO31 <= offset < 0
    ensures NextTag(h, b, offset) == (FDT_END, -ERR_TRUNCATED)
  {
    hide TokenExtent;
    OffsetPtrExact(h, offset, 4);
  }

  lemma WentAstray(h: Header, b: seq<byte>, h': Header, b1: seq<byte>, b3: seq<byte>, name: seq<byte>, at: nat, n: nat)
    requires n == NodeSize(name) && at == h.offStruct - 8 && |b| == h.totalsize && at <= h.offStrings + h.sizeStrings
    requires h.offStrings + h.sizeStrings + n <= h.totalsize
    requires h' == h.(sizeStruct := h'.sizeStruct, offStrings := h'.offStrings)
    requires h'.sizeStruct == h.sizeStruct + n && h'.offStrings == h.offStrings + n
    requires b1 == Patch(b, at + n, b[at..h.offStrings + h.sizeStrings])
    requires SameAround(b1, b3, at, n) && Parse(b3[at..at + n]) == Some([BeginNode(name), EndNode])
    ensures Astray(h, b, h', b3, name)
  {
    hide Parse, NodeSize, Patch;
    var end := h.offStrings + h.sizeStrings;
    PatchBefore(b, at + n, b[at..end], at);
    PatchInside(b, at + n, b[at..end], 0, end - at);
    assert b[at..end][0..end - at] == b[at..end];
    SuffixSlice(b1, b3, at + n, at + n, end + n);
  }

  /** fdt_add_subnode: an empty node after the parent's properties, unless one
      of that name is there; the result is its offset.  The parent -1 is not
      refused: see InsertAstray. */
  method AddSubnode(f: Fdt, parent: int, name: CStr, ghost t: Hedge, ghost k: nat) returns (r: int)
    requires HasTree(f, t) && Arg(f.hdr, f.Buf(), Flat(t) + [End], k, parent)
    modifies f`hdr, f.mem
    ensures Confined(f) && f.Mapped()
    ensures parent != -1 ==> SameFrame(old(f.hdr), old(f.Buf()), f.hdr, f.Buf())
    ensures RwProbe(old(f.hdr)) != 0 ==> r == RwProbe(old(f.hdr))
    ensures RwProbe(old(f.hdr)) == 0 && parent == -1 && Room(old(f.hdr), 0, NodeSize(name)) ==>
              r == -ERR_TRUNCATED && Astray(old(f.hdr), old(f.Buf()), f.hdr, f.Buf(), name)
    ensures RwProbe(old(f.hdr)) == 0 && parent == -1 && !Room(old(f.hdr), 0, NodeSize(name)) ==>
              r == -ERR_NOSPACE && f.hdr == old(f.hdr) && f.Buf() == old(f.Buf())
    ensures RwProbe(old(f.hdr)) == 0 && parent != -1 && !old(NodeArg(f, t, k, parent)) ==>
              r == if parent < 0 then parent else -ERR_BADOFFSET
    ensures RwProbe(old(f.hdr)) == 0 && old(NodeArg(f, t, k, parent)) ==>
              if FindChild(BodyAt(t, k), name).Some? then r == -2
              else if Room(old(f.hdr), 0, NodeSize(name)) then r >= 0 else r == -ERR_NOSPACE
    ensures r < 0 && parent != -1 ==> f.hdr == old(f.hdr) && f.Buf() == old(f.Buf())
    ensures r >= 0 ==> IsNode(t, k) && HasTree(f, EditBody(t, k, WithChild(BodyAt(t, k), name)))
    ensures r >= 0 ==> FindChild(BodyAt(t, k), name).None?
    ensures r >= 0 ==> Inserted(old(f.hdr), old(f.Buf()), f.hdr, f.Buf(), Flat(t) + [End], ChildToken(t, k), r, name)
  {
    hide Parse, Complete, FindChild, EditBody, Inserted, RwProbe, Astray, SameFrame;
    hide Room, NodeSize, WithChild, BodyAt, Off;
    r := RwProbe(f.hdr);
    FrameSelf(f.hdr, f.Buf(), Flat(t) + [End]);
    if r != 0 {
      return;
    }
    RwIsRo(f.hdr);
    r := SubnodeOffset(f, parent, name, t, k);
    if r >= 0 {
      return -ERR_EXISTS;
    } else if r != -ERR_NOTFOUND {
      return;
    }
    ghost var cs := Flat(t) + [End];
    PointsAligned(f.hdr, f.Buf(), cs, k, parent);
    if parent == -1 {
      r := InsertAstray(f, name, cs);
      return;
    }
    var next := SkipBegin(f, parent, cs, k);
    LeadToken(t, k);
    r := SkipProps(f, next, cs, k + 1);
    PointsAligned(f.hdr, f.Buf(), cs, ChildToken(t, k), r);
    ghost var h, b := f.hdr, f.Buf();
    var err := InsertNode(f, r, name, cs, ChildToken(t, k));
    if err != 0 {
      return err;
    }
    ChildSpelled(t, k, name, h, b, f.hdr, f.Buf(), r);
  }

  lemma RwIsRo(h: Header)
    requires RwProbe(h) == 0
    ensures RoProbe(h) >= 0
  {
  }

  /** fdt_next_tag over the parent's BEGIN_NODE. */
  method SkipBegin(f: Fdt, offset: nat, ghost cs: seq<Call>, ghost k: nat) returns (next: int)
    requires f.Mapped() && Complete(f.hdr, f.Buf(), cs) && Points(f.hdr, f.Buf(), cs, k, offset) && k + 1 < |cs|
    ensures Points(f.hdr, f.Buf(), cs, k + 1, next) && next >= 0
  {
    hide Parse, NextTag, Complete, ReadsProp, NameBytes;
    At(f.hdr, f.Buf(), cs, k);
    var tag;
    tag, next := FdtNextTag(f, offset);
  }

  lemma LeadToken(t: Hedge, k: nat)
    requires IsNode(t, k)
    ensures k + 1 < |Flat(t) + [End]| && PropsEnd(Flat(t) + [End], k + 1) == ChildToken(t, k) < |Flat(t) + [End]|
  {
    hide Lies, Lead;
    NodeTokens(t, k);
    PropsEndBody(Flat(t) + [End], k + 1, BodyAt(t, k));
  }

  lemma ChildSpelled(t: Hedge, k: nat, name: seq<byte>, h: Header, b: seq<byte>, h': Header, b': seq<byte>, q: nat)
    requires IsNode(t, k) && Inserted(h, b, h', b', Flat(t) + [End], ChildToken(t, k), q, name)
    ensures Spells(h', b', EditBody(t, k, WithChild(BodyAt(t, k), name)))
  {
    hide Complete, EditBody, Parse;
    var body := BodyAt(t, k);
    FlatWithChild(body, name);
    FlatNode(t, k);
    SpellsEdit(t, k, WithChild(body, name), Lead(body), Lead(body), [BeginNode(name), EndNode], h', b');
  }

  // ---- deleting what was added

  /** The new node is a node of the new tree, with nothing in it. */
  lemma NewNode(t: Hedge, k: nat, name: seq<byte>)
    requires IsNode(t, k)
    ensures var t', j := EditBody(t, k, WithChild(BodyAt(t, k), name)), ChildToken(t, k);
            && IsNode(t', k) && IsNode(t', j) && NodeEnd(t', j) == j + 2
  {
    var body := BodyAt(t, k);
    var t', j := EditBody(t, k, WithChild(body, name)), ChildToken(t, k);
    FlatWithChild(body, name);
    BodyEdit(t, k, WithChild(body, name), Lead(body), Lead(body), [BeginNode(name), EndNode]);
    FlatNode(t, k);
    hide EditBody, WithChild, BodyAt, Flat;
    var cs, cs' := Flat(t) + [End], Flat(t') + [End];
    assert cs' == cs[..j] + [BeginNode(name), EndNode] + cs[j..];
    assert cs'[j] == BeginNode(name) && cs'[j + 1] == EndNode && cs'[k] == cs[k];
    assert IsNode(t', k) && IsNode(t', j);
    CloseAtNode(t', j);
  }

  /** The body of an edited node is the new body. */
  lemma {:induction false} BodyOfEdit(t: Hedge, k: nat, n: seq<byte>, body: Hedge)
    requires IsNode(t, k) && IsNode(ReplaceAt(t, k, NodeH(n, body, Nil)), k)
    ensures BodyAt(ReplaceAt(t, k, NodeH(n, body, Nil)), k) == body
    decreases t
  {
    var m := NodeH(n, body, Nil);
    match t
    case PropH(_, _, r) => FlatReplace(r, k - 1, m); BodyOfEdit(r, k - 1, n, body);
    case NopH(r) => FlatReplace(r, k - 1, m); BodyOfEdit(r, k - 1, n, body);
    case NodeH(_, b, r) =>
      NodeIndex(t, k);
      if k == 0 {
        assert Append(m, r) == NodeH(n, body, Append(Nil, r));
      } else if k <= |Flat(b)| {
        FlatReplace(b, k - 1, m);
        BodyOfEdit(b, k - 1, n, body);
      } else {
        FlatReplace(r, k - 2 - |Flat(b)|, m);
        BodyOfEdit(r, k - 2 - |Flat(b)|, n, body);
      }
  }

  /** fdt_add_subnode, fdt_subnode_offset, fdt_del_node in a row: the lookup
      finds exactly the offset that was returned, and the deletion restores the
      structure block byte for byte. */
  method AddFindDelete(f: Fdt, parent: int, name: CStr, ghost t: Hedge, ghost k: nat)
    returns (added: int, found: int, err: int)
    requires HasTree(f, t) && Arg(f.hdr, f.Buf(), Flat(t) + [End], k, parent)
    modifies f`hdr, f.mem
    ensures f.Mapped()
    ensures added >= 0 ==> found == added && err == 0
    ensures added >= 0 ==> f.hdr == old(f.hdr) && HasTree(f, t)
    ensures added >= 0 ==> StructBlock(f.hdr, f.Buf()) == old(StructBlock(f.hdr, f.Buf()))
    ensures added >= 0 ==> StringsBlock(f.hdr, f.Buf()) == old(StringsBlock(f.hdr, f.Buf()))
    ensures added < 0 && parent != -1 ==> f.hdr == old(f.hdr) && f.Buf() == old(f.Buf())
  {
    hide Parse, Complete, EditBody, Inserted, RwProbe, WithoutPart, Shrunk;
    hide ReplaceAt, FindChild, WithChild, BodyAt, NodeEnd, Off, RoProbe;
    ghost var h, b := f.hdr, f.Buf();
    found, err := 0, 0;
    added := AddSubnode(f, parent, name, t, k);
    if added < 0 {
      return;
    }
    ghost var t', j := EditBody(t, k, WithChild(BodyAt(t, k), name)), ChildToken(t, k);
    ghost var h1, b1 := f.hdr, f.Buf();
    NewNode(t, k, name);
    AddedArgs(h, b, h1, b1, t, k, name, parent, added);
    ProbeKept(h, b, h1, b1, t');
    found := SubnodeOffset(f, parent, name, t', k);
    FoundAdded(t, k, name);
    assert NodeArg(f, t', j, found);
    err := DelNode(f, added, t', j);
    Restored(h, b, h1, b1, f.hdr, f.Buf(), t, k, name, added);
  }

  /** The parent and the new node, as arguments of the next calls. */
  lemma AddedArgs(h: Header, b: seq<byte>, h1: Header, b1: seq<byte>, t: Hedge, k: nat, name: seq<byte>, parent: int,
                  added: int)
    requires IsNode(t, k) && Spells(h, b, t) && added >= 0
    requires Points(h, b, Flat(t) + [End], k, parent)
    requires Inserted(h, b, h1, b1, Flat(t) + [End], ChildToken(t, k), added, name)
    requires Spells(h1, b1, EditBody(t, k, WithChild(BodyAt(t, k), name)))
    ensures var cs' := Flat(EditBody(t, k, WithChild(BodyAt(t, k), name))) + [End];
            && Points(h1, b1, cs', k, parent) && Arg(h1, b1, cs', k, parent)
            && Points(h1, b1, cs', ChildToken(t, k), added) && Arg(h1, b1, cs', ChildToken(t, k), added)
            && Off(h1, b1, ChildToken(t, k) + 2) == added + NodeSize(name)
            && |cs'| == |Flat(t)| + 3
  {
    hide Parse, Denotes, WithChild, EditBody, NodeSize;
    var body := BodyAt(t, k);
    var cs' := Flat(EditBody(t, k, WithChild(body, name))) + [End];
    FlatWithChild(body, name);
    BodyEdit(t, k, WithChild(body, name), Lead(body), Lead(body), [BeginNode(name), EndNode]);
    LeadToken(t, k);
    PointsArg(h1, b1, cs', k, parent);
    PointsArg(h1, b1, cs', ChildToken(t, k), added);
  }

  lemma ProbeKept(h: Header, b: seq<byte>, h': Header, b': seq<byte>, t: Hedge)
    requires RwProbe(h) == 0 && SameFrame(h, b, h', b') && Spells(h', b', t)
    ensures RwProbe(h') == 0 && RoProbe(h') >= 0
  {
  }

  lemma FoundAdded(t: Hedge, k: nat, name: seq<byte>)
    requires IsNode(t, k) && FindChild(BodyAt(t, k), name).None?
    ensures IsNode(EditBody(t, k, WithChild(BodyAt(t, k), name)), k)
    ensures FindChild(BodyAt(EditBody(t, k, WithChild(BodyAt(t, k), name)), k), name) == Some(Lead(BodyAt(t, k)))
  {
    NewNode(t, k, name);
    hide FindChild, WithChild, Flat;
    BodyOfEdit(t, k, Flat(t)[k].name, WithChild(BodyAt(t, k), name));
    FindNewChild(BodyAt(t, k), name);
  }

  lemma Restored(h: Header, b: seq<byte>, h1: Header, b1: seq<byte>, h2: Header, b2: seq<byte>, t: Hedge, k: nat,
                 name: seq<byte>, q: nat)
    requires IsNode(t, k) && Spells(h, b, t) && Inserted(h, b, h1, b1, Flat(t) + [End], ChildToken(t, k), q, name)
    requires Shrunk(h1, b1, h2, b2, NodeSize(name))
    requires WithoutPart(StructBlock(h1, b1), StructBlock(h2, b2), q, NodeSize(name))
    ensures h2 == h && StructBlock(h2, b2) == StructBlock(h, b) && StringsBlock(h2, b2) == StringsBlock(h, b)
    ensures Spells(h2, b2, t)
  {
    hide Parse, Denotes, NodeSize;
    var s := StructBlock(h, b);
    assert s[..q] + s[q..] == s;
  }
}
