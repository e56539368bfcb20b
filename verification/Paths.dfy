/** Full paths: fdt_get_path prints the path of a node, fdt_path_offset resolves
    one, and each undoes the other exactly when no sibling stands in the way. */
module Paths {
  import opened Bytes
  import opened Tokens
  import opened Blob
  import opened Reader
  import opened Hedges
  import opened TreeRead
  import opened ReadWrite
  import opened Probe
  import opened Nodes

  const SLASH: byte := 0x2f

  /** The nodes that are open before token `i`, outermost first. */
  function Open(cs: seq<Call>, i: nat): (s: seq<nat>)
    requires i <= |cs|
  {
    if i == 0 then [] else
    var s := Open(cs, i - 1);
    match cs[i - 1]
    case BeginNode(_) => s + [i - 1]
    case EndNode => if s == [] then [] else s[..|s| - 1]
    case _ => s
  }

  /** A node with its ancestors. */
  function Trail(cs: seq<Call>, k: nat): (s: seq<nat>)
    requires k < |cs|
  {
    Open(cs, k) + [k]
  }

  /** Only nodes are open. */
  lemma {:induction false} OpenIsNode(cs: seq<Call>, i: nat, j: nat)
    requires i <= |cs| && j < |Open(cs, i)|
    ensures Open(cs, i)[j] < i && cs[Open(cs, i)[j]].BeginNode?
  {
    var s := Open(cs, i - 1);
    if j < |s| {
      OpenIsNode(cs, i - 1, j);
    }
  }

  /** fdt_next_node moves to a node whose ancestors are among those just left. */
  lemma {:induction false} ForwardOpen(cs: seq<Call>, i: nat, d: nat)
    requires i <= |cs| && |Open(cs, i)| == d + 1
    ensures match Forward(cs, i, d)
            case AtNode(j, e) => 0 < e <= d + 1 && Open(cs, j) == Open(cs, i)[..e]
            case _ => true
    decreases |cs| - i
  {
    if i < |cs| {
      match cs[i]
      case BeginNode(_) => assert Open(cs, i)[..d + 1] == Open(cs, i);
      case EndNode =>
        if d > 0 {
          ForwardOpen(cs, i + 1, d - 1);
          var s := Forward(cs, i + 1, d - 1);
          if s.AtNode? {
            assert Open(cs, i + 1)[..s.depth] == Open(cs, i)[..s.depth];
          }
        }
      case Prop(_, _) => ForwardOpen(cs, i + 1, d);
      case Nop => ForwardOpen(cs, i + 1, d);
      case End =>
    }
  }

  // ---- printing

  function NameOf(cs: seq<Call>, x: nat): seq<byte> {
    if x < |cs| && cs[x].BeginNode? then cs[x].name else []
  }

  /** Names with a slash after each. */
  function Join(cs: seq<Call>, xs: seq<nat>): (s: seq<byte>) {
    if xs == [] then [] else Join(cs, xs[..|xs| - 1]) + NameOf(cs, xs[|xs| - 1]) + [SLASH]
  }

  /** The path of a node; the root is "/" and not "". */
  function PathOf(cs: seq<Call>, k: nat): (s: seq<byte>)
    requires k < |cs|
  {
    var s := Join(cs, Trail(cs, k));
    if |s| > 1 then s[..|s| - 1] else s
  }

  /** Nodes other than the first one are inside it. */
  predicate SingleRoot(cs: seq<Call>) {
    |cs| > 0 && cs[0].BeginNode? && forall i :: 0 < i < |cs| && cs[i].BeginNode? ==> Open(cs, i) != []
  }

  /** Node names are without slashes, as the Devicetree Specification asks. */
  predicate NoSlashes(cs: seq<Call>) {
    forall i :: 0 <= i < |cs| && cs[i].BeginNode? ==> SLASH !in cs[i].name
  }

  lemma {:induction false} JoinMono(cs: seq<Call>, xs: seq<nat>, m: nat)
    requires m <= |xs|
    ensures |Join(cs, xs[..m])| <= |Join(cs, xs)|
    decreases |xs|
  {
    if m < |xs| {
      JoinMono(cs, xs[..|xs| - 1], m);
      assert xs[..|xs| - 1][..m] == xs[..m];
    } else {
      assert xs[..m] == xs;
    }
  }

  lemma JoinSnoc(cs: seq<Call>, xs: seq<nat>, m: nat)
    requires m < |xs|
    ensures Join(cs, xs[..m + 1]) == Join(cs, xs[..m]) + NameOf(cs, xs[m]) + [SLASH]
  {
    var ys := xs[..m + 1];
    assert ys[..|ys| - 1] == xs[..m] && ys[|ys| - 1] == xs[m];
  }

  /** The do-while that removes the last name of the path so far. */
  method PopName(buf: array<byte>, p0: nat, ghost s: seq<byte>, ghost name: seq<byte>) returns (p: nat)
    requires p0 <= buf.Length && buf[..p0] == s + name + [SLASH]
    requires s != [] && s[|s| - 1] == SLASH && SLASH !in name
    ensures p == |s| && buf[..p] == s
  {
    p := p0 - 1;
    ghost var b := buf[..p0];
    assert forall i :: 0 <= i < p0 ==> buf[i] == b[i];
    assert forall i :: |s| <= i < |s| + |name| ==> b[i] == name[i - |s|];
    assert b[|s| - 1] == s[|s| - 1];
    while buf[p - 1] != SLASH
      invariant |s| <= p < p0
      decreases p
    {
      p := p - 1;
    }
    assert buf[..p] == b[..p] == s;
  }

  /** How much of the path fits: `d` names, `p` bytes, and no more than that
      unless the whole trail is there. */
  predicate Printed(cs: seq<Call>, trail: seq<nat>, b: seq<byte>, size: nat, p: nat, d: nat) {
    && d <= |trail| && p <= size <= |b| && p == |Join(cs, trail[..d])| && b[..p] == Join(cs, trail[..d])
    && (d < |trail| ==> |Join(cs, trail[..d + 1])| > size)
  }

  /** What is printed of one trail is printed of another that shares it. */
  lemma PrintedCommon(cs: seq<Call>, trail: seq<nat>, next: seq<nat>, b: seq<byte>, size: nat, p: nat, d: nat)
    requires Printed(cs, trail, b, size, p, d) && |next| > 0
    requires |next| - 1 <= |trail| && next[..|next| - 1] == trail[..|next| - 1]
    ensures d < |next| - 1 ==> Printed(cs, next, b, size, p, d)
    ensures d <= |next| - 1 ==> p == |Join(cs, next[..d])| && b[..p] == Join(cs, next[..d])
  {
    var e := |next| - 1;
    if d <= e {
      assert next[..d] == next[..e][..d] == trail[..e][..d] == trail[..d];
      if d < e {
        assert next[..d + 1] == next[..e][..d + 1] == trail[..e][..d + 1] == trail[..d + 1];
      }
    }
  }

  /** The inner while loop: back to the ancestors of the next node. */
  method PopTo(buf: array<byte>, p0: nat, d0: nat, depth: nat, ghost cs: seq<Call>, ghost trail: seq<nat>)
    returns (p: nat, d: nat)
    requires p0 <= buf.Length && d0 <= |trail| && 0 < depth
    requires p0 == |Join(cs, trail[..d0])| && buf[..p0] == Join(cs, trail[..d0])
    requires forall i :: 0 <= i < |trail| ==> SLASH !in NameOf(cs, trail[i])
    ensures d == (if d0 > depth then depth else d0) && p <= p0
    ensures p == |Join(cs, trail[..d])| && buf[..p] == Join(cs, trail[..d])
  {
    p, d := p0, d0;
    while d > depth
      invariant d <= d0 && p <= p0 && (d >= depth || d == d0)
      invariant p == |Join(cs, trail[..d])| && buf[..p] == Join(cs, trail[..d])
      decreases d
    {
      JoinSnoc(cs, trail, d - 1);
      JoinSnoc(cs, trail, d - 2);
      ghost var s := Join(cs, trail[..d - 1]);
      p := PopName(buf, p, s, NameOf(cs, trail[d - 1]));
      d := d - 1;
    }
  }

  /** Appending a name and a slash. */
  method PushName(buf: array<byte>, p0: nat, name: seq<byte>) returns (p: nat)
    requires p0 + |name| + 1 <= buf.Length
    modifies buf
    ensures p == p0 + |name| + 1 && buf[..p] == old(buf[..p0]) + name + [SLASH]
  {
    forall i | 0 <= i < |name| {
      buf[p0 + i] := name[i];
    }
    assert forall i :: 0 <= i < |name| ==> buf[p0 + i] == name[i];
    p := p0 + |name|;
    ghost var s := buf[..p];
    assert s == old(buf[..p0]) + name by {
      forall i | 0 <= i < p
        ensures s[i] == (old(buf[..p0]) + name)[i]
      {
        if i >= p0 {
          assert buf[p0 + (i - p0)] == name[i - p0];
        }
      }
    }
    buf[p] := SLASH;
    p := p + 1;
    assert buf[..p - 1] == s;
    assert buf[..p] == buf[..p - 1] + [SLASH];
  }

  /** One END tag, at the end; one root; names without slashes. */
  predicate PathTree(cs: seq<Call>) {
    Ended(cs) && SingleRoot(cs) && NoSlashes(cs) && forall i :: 0 <= i < |cs| - 1 ==> !cs[i].End?
  }

  /** When nothing is open, the next node is open at the top level. */
  lemma {:induction false} TopLevelNode(cs: seq<Call>, a: nat, k: nat)
    requires 0 < a <= k < |cs| && cs[k].BeginNode? && Open(cs, a) == []
    ensures !SingleRoot(cs)
    decreases k - a
  {
    if !cs[a].BeginNode? {
      TopLevelNode(cs, a + 1, k);
    }
  }

  /** Walking forward never jumps over a node. */
  lemma {:induction false} ForwardReaches(cs: seq<Call>, i: nat, d: nat, k: nat)
    requires PathTree(cs) && 0 < i <= k < |cs| && cs[k].BeginNode? && |Open(cs, i)| == d + 1
    ensures Forward(cs, i, d).AtNode? && Forward(cs, i, d).i <= k
    decreases k - i
  {
    match cs[i]
    case BeginNode(_) =>
    case EndNode =>
      if d > 0 {
        ForwardReaches(cs, i + 1, d - 1, k);
      } else {
        TopLevelNode(cs, i + 1, k);
        assert false;
      }
    case Prop(_, _) => ForwardReaches(cs, i + 1, d, k);
    case Nop => ForwardReaches(cs, i + 1, d, k);
  }

  lemma TrailNoSlash(cs: seq<Call>, k: nat, j: nat)
    requires NoSlashes(cs) && k < |cs| && cs[k].BeginNode? && j < |Trail(cs, k)|
    ensures SLASH !in NameOf(cs, Trail(cs, k)[j])
  {
    if j < |Open(cs, k)| {
      OpenIsNode(cs, k, j);
    }
  }

  /** One round of fdt_get_path: cut back to the common ancestors of the last
      node and this one, then add this name if it fits. */
  method PrintNode(buf: array<byte>, p0: nat, d0: nat, name: seq<byte>, depth: nat, ghost cs: seq<Call>, ghost i: nat,
                   ghost trail: seq<nat>)
    returns (p: nat, d: nat)
    requires i < |cs| && cs[i].BeginNode? && name == cs[i].name && depth == |Open(cs, i)|
    requires depth <= |trail| && Open(cs, i) == trail[..depth] && (depth == 0 ==> d0 == 0)
    requires Printed(cs, trail, buf[..], buf.Length, p0, d0)
    requires forall j :: 0 <= j < |trail| ==> SLASH !in NameOf(cs, trail[j])
    modifies buf
    ensures Printed(cs, Trail(cs, i), buf[..], buf.Length, p, d)
  {
    hide Open, Join;
    p, d := p0, d0;
    ghost var next := Trail(cs, i);
    assert next[..depth] == Open(cs, i);
    assert buf[..][..p0] == buf[..p0];
    PrintedCommon(cs, trail, next, buf[..], buf.Length, p0, d0);
    if d > depth {
      p, d := PopTo(buf, p, d, depth, cs, trail);
      assert next[..depth] == trail[..depth];
    }
    if d >= depth {
      JoinSnoc(cs, next, depth);
      assert next[..depth + 1] == next;
      if p + |name| + 1 <= buf.Length {
        p := PushName(buf, p, name);
        d := d + 1;
      }
    }
    assert buf[..][..p] == buf[..p];
  }

  /** fdt_get_path: the path and its terminator if they fit, else NOSPACE; the
      buffer is never overrun. */
  method GetPath(f: Fdt, nodeoffset: int, buf: array<byte>, ghost cs: seq<Call>, ghost k: nat) returns (err: int)
    requires f.Mapped() && Complete(f.hdr, f.Buf(), cs) && PathTree(cs) && buf != f.mem
    requires nodeoffset < 0 || (Points(f.hdr, f.Buf(), cs, k, nodeoffset) && cs[k].BeginNode?)
    modifies buf
    ensures RoProbe(f.hdr) < 0 ==> err == RoProbe(f.hdr)
    ensures RoProbe(f.hdr) >= 0 && buf.Length < 2 ==> err == -ERR_NOSPACE
    ensures RoProbe(f.hdr) >= 0 && buf.Length >= 2 && nodeoffset < 0 ==> err == -ERR_BADOFFSET
    ensures RoProbe(f.hdr) >= 0 && buf.Length >= 2 && nodeoffset >= 0 ==>
              err == if |PathOf(cs, k)| + 1 <= buf.Length then 0 else -ERR_NOSPACE
    ensures err == 0 ==> nodeoffset >= 0 && |PathOf(cs, k)| < buf.Length
    ensures err == 0 ==> buf[..|PathOf(cs, k)|] == PathOf(cs, k) && buf[|PathOf(cs, k)|] == 0
  {
    hide Parse, Complete, NextTag, ReadsProp, FindNul, Open, Join, Forward, RoProbe;
    if RoProbe(f.hdr) < 0 {
      return RoProbe(f.hdr);
    }
    if buf.Length < 2 {
      return -ERR_NOSPACE;
    }
    ghost var h, b := f.hdr, f.Buf();
    var p, pdepth, offset, depth := 0, 0, 0, 0;
    ghost var i, trail := 0, [];
    OffZero(h, b, cs);
    EmptyPrinted(cs, buf[..]);
    if nodeoffset >= 0 {
      OffMono(h, b, cs, 0, k);
    }
    while offset >= 0 && offset <= nodeoffset
      invariant f.Mapped() && f.Buf() == b && f.hdr == h
      invariant Points(h, b, cs, i, offset) && cs[i].BeginNode? && depth == |Open(cs, i)|
      invariant 0 <= offset && (nodeoffset >= 0 ==> i <= k && offset <= nodeoffset)
      invariant depth <= |trail| && Open(cs, i) == trail[..depth] && (depth == 0 ==> pdepth == 0)
      invariant Printed(cs, trail, buf[..], buf.Length, p, pdepth)
      invariant forall j :: 0 <= j < |trail| ==> SLASH !in NameOf(cs, trail[j])
      decreases |cs| - i
    {
      At(h, b, cs, i);
      var name := NameBytes(f.hdr, f.Buf(), offset);
      p, pdepth := PrintNode(buf, p, pdepth, name, depth, cs, i, trail);
      assert f.Buf() == b;
      OffMono(h, b, cs, i, k);
      if offset == nodeoffset {
        err := EndPath(buf, p, pdepth, depth, cs, k);
        return;
      }
      ghost var j := NextInTrail(cs, i, depth, k);
      OffMono(h, b, cs, j, k);
      trail := Trail(cs, i);
      offset, depth := NextNode(f, offset, depth, cs, i);
      i := j;
    }
    return -ERR_BADOFFSET;
  }

  lemma EmptyPrinted(cs: seq<Call>, b: seq<byte>)
    requires PathTree(cs)
    ensures Open(cs, 0) == [] && Printed(cs, [], b, |b|, 0, 0)
  {
  }

  /** The next node of the walk, and what it shares with this one. */
  lemma NextInTrail(cs: seq<Call>, i: nat, d: nat, k: nat) returns (j: nat)
    requires PathTree(cs) && i < k < |cs| && cs[i].BeginNode? && cs[k].BeginNode? && d == |Open(cs, i)|
    ensures i < j <= k && cs[j].BeginNode? && Open(cs, j) != []
    ensures Forward(cs, i + 1, d) == AtNode(j, |Open(cs, j)|)
    ensures |Open(cs, j)| <= |Trail(cs, i)| && Open(cs, j) == Trail(cs, i)[..|Open(cs, j)|]
    ensures forall x :: 0 <= x < |Trail(cs, i)| ==> SLASH !in NameOf(cs, Trail(cs, i)[x])
  {
    assert Open(cs, i + 1) == Trail(cs, i);
    ForwardReaches(cs, i + 1, d, k);
    ForwardOpen(cs, i + 1, d);
    j := Forward(cs, i + 1, d).i;
    forall x | 0 <= x < |Trail(cs, i)|
      ensures SLASH !in NameOf(cs, Trail(cs, i)[x])
    {
      TrailNoSlash(cs, i, x);
    }
  }

  /** At the node itself: terminate the string, unless something did not fit. */
  method EndPath(buf: array<byte>, p0: nat, pdepth: nat, depth: nat, ghost cs: seq<Call>, ghost k: nat)
    returns (err: int)
    requires k < |cs| && buf.Length >= 2 && depth == |Open(cs, k)|
    requires Printed(cs, Trail(cs, k), buf[..], buf.Length, p0, pdepth)
    modifies buf
    ensures err == if |PathOf(cs, k)| + 1 <= buf.Length then 0 else -ERR_NOSPACE
    ensures err == 0 ==> buf[..|PathOf(cs, k)|] == PathOf(cs, k) && buf[|PathOf(cs, k)|] == 0
  {
    hide Open, Join;
    ghost var t := Trail(cs, k);
    assert t[..|t|] == t;
    JoinNonempty(cs, t);
    if pdepth < depth + 1 {
      JoinMono(cs, t, pdepth + 1);
      return -ERR_NOSPACE;
    }
    var p := p0;
    if p > 1 {
      p := p - 1;
    }
    ghost var b := buf[..];
    PrefixSlice(b, Join(cs, t), p0, 0, p) by { assert Join(cs, t)[..p0] == Join(cs, t); }
    assert b[..p] == b[0..p] && PathOf(cs, k) == Join(cs, t)[0..p];
    Terminate(buf, p);
    return 0;
  }

  method Terminate(buf: array<byte>, p: nat)
    requires p < buf.Length
    modifies buf
    ensures buf[..p] == old(buf[..])[..p] && buf[p] == 0
  {
    buf[p] := 0;
  }

  lemma JoinNonempty(cs: seq<Call>, xs: seq<nat>)
    requires xs != []
    ensures |Join(cs, xs)| >= 1
  {
  }

  // ---- resolving

  function NextSlash(path: seq<byte>, i: nat): (q: nat)
    requires i <= |path|
    ensures i <= q <= |path| && SLASH !in path[i..q] && (q < |path| ==> path[q] == SLASH)
    decreases |path| - i
  {
    if i == |path| || path[i] == SLASH then i else
      var q := NextSlash(path, i + 1);
      assert path[i..q] == [path[i]] + path[i + 1..q];
      q
  }

  /** The components of a path: what stands between its slashes. */
  function Comps(path: seq<byte>, i: nat): (r: seq<seq<byte>>)
    requires i <= |path|
    decreases |path| - i
  {
    if i == |path| then []
    else if path[i] == SLASH then Comps(path, i + 1)
    else
      var q := NextSlash(path, i);
      assert q > i;
      [path[i..q]] + Comps(path, q)
  }

  /** Following names from node `k`, at each step to the first child that matches. */
  function Resolve(cs: seq<Call>, k: nat, names: seq<seq<byte>>): (r: Option<nat>)
    requires k < |cs|
    ensures r.Some? ==> r.value < |cs|
    decreases |names|
  {
    if names == [] then Some(k) else
    match SubIndex(cs, k + 1, 0, names[0])
    case None => None
    case Some(j) => Resolve(cs, j, names[1..])
  }

  /** fdt_path_offset_namelen on an absolute path. */
  method PathOffset(f: Fdt, path: seq<byte>, ghost cs: seq<Call>) returns (r: int)
    requires f.Mapped() && Complete(f.hdr, f.Buf(), cs) && Ended(cs) && cs[0].BeginNode?
    requires path != [] && path[0] == SLASH
    ensures RoProbe(f.hdr) < 0 ==> r == RoProbe(f.hdr)
    ensures RoProbe(f.hdr) >= 0 ==>
              match Resolve(cs, 0, Comps(path, 0))
              case Some(j) => Points(f.hdr, f.Buf(), cs, j, r)
              case None => r == -ERR_NOTFOUND
  {
    hide Parse, Complete, SubIndex, RoProbe;
    if RoProbe(f.hdr) < 0 {
      return RoProbe(f.hdr);
    }
    ghost var h, b := f.hdr, f.Buf();
    var p, offset := 0, 0;
    ghost var k: nat := 0;
    OffZero(h, b, cs);
    while p < |path|
      invariant 0 <= p <= |path| && Points(h, b, cs, k, offset) && cs[k].BeginNode?
      invariant Resolve(cs, 0, Comps(path, 0)) == Resolve(cs, k, Comps(path, p))
      decreases |path| - p
    {
      ghost var p0 := p;
      while path[p] == SLASH
        invariant p0 <= p < |path| && Comps(path, p) == Comps(path, p0)
        decreases |path| - p
      {
        p := p + 1;
        if p == |path| {
          return offset;
        }
      }
      var q := NextSlash(path, p);
      PointsAligned(h, b, cs, k, offset);
      offset := SubFrom(f, offset, path[p..q], cs, k);
      assert Comps(path, p)[1..] == Comps(path, q);
      if offset < 0 {
        FoundOffset(h, b, cs, k, path[p..q], offset);
        return offset;
      }
      k := SubIndex(cs, k + 1, 0, path[p..q]).value;
      p := q;
    }
    return offset;
  }

  lemma FoundOffset(h: Header, b: seq<byte>, cs: seq<Call>, k: nat, s: seq<byte>, offset: int)
    requires Complete(h, b, cs) && k < |cs| && offset < 0
    requires SubIndex(cs, k + 1, 0, s).Some? ==> Points(h, b, cs, SubIndex(cs, k + 1, 0, s).value, offset)
    ensures SubIndex(cs, k + 1, 0, s).None?
  {
    hide Complete, SubIndex;
    if SubIndex(cs, k + 1, 0, s).Some? {
      PointsAligned(h, b, cs, SubIndex(cs, k + 1, 0, s).value, offset);
    }
  }

  // ---- the round trip

  /** An open node stays at its place until it is closed. */
  lemma {:induction false} StaysOpen(cs: seq<Call>, j: nat, p: nat, x: nat)
    requires j <= |cs| && p < |Open(cs, j)| && Open(cs, j)[p] < x <= j
    ensures p < |Open(cs, x)| && Open(cs, x)[..p + 1] == Open(cs, j)[..p + 1]
    decreases j
  {
    if x < j {
      var s := Open(cs, j - 1);
      assert Open(cs, j)[..p + 1] == s[..p + 1];
      StaysOpen(cs, j - 1, p, x);
    }
  }

  /** A sibling of the wanted child. */
  predicate Sibling(cs: seq<Call>, base: seq<nat>, x: nat) {
    x < |cs| && cs[x].BeginNode? && Open(cs, x) == base
  }

  /** What the child lookup finds is a child, and the first one that matches. */
  lemma {:induction false} SubFound(cs: seq<Call>, i: nat, d: nat, s: seq<byte>, base: seq<nat>)
    requires i <= |cs| && |Open(cs, i)| == |base| + d && Open(cs, i)[..|base|] == base && SubIndex(cs, i, d, s).Some?
    ensures var j := SubIndex(cs, i, d, s).value;
            && Sibling(cs, base, j) && NameMatches(cs[j].name, s)
            && forall x :: i <= x < j && Sibling(cs, base, x) ==> !NameMatches(cs[x].name, s)
    decreases |cs| - i
  {
    hide NameMatches;
    assert Open(cs, i)[..|base| + d] == Open(cs, i);
    match cs[i]
    case BeginNode(n) =>
      if !(d == 0 && NameMatches(n, s)) {
        SubFound(cs, i + 1, d + 1, s, base);
      }
    case EndNode => SubFound(cs, i + 1, d - 1, s, base);
    case Prop(_, _) => SubFound(cs, i + 1, d, s, base);
    case Nop => SubFound(cs, i + 1, d, s, base);
  }

  /** And a child with no matching sibling before it is found. */
  lemma {:induction false} SubFinds(cs: seq<Call>, i: nat, d: nat, s: seq<byte>, base: seq<nat>, j: nat)
    requires i <= j < |cs| && |Open(cs, i)| == |base| + d && Open(cs, i)[..|base|] == base && base != []
    requires base[|base| - 1] < i
    requires Sibling(cs, base, j) && NameMatches(cs[j].name, s) && forall x :: 0 <= x < |cs| ==>
              !cs[x].End? || x == |cs| - 1
    requires forall x :: i <= x < j && Sibling(cs, base, x) ==> !NameMatches(cs[x].name, s)
    ensures SubIndex(cs, i, d, s) == Some(j)
    decreases j - i
  {
    hide NameMatches;
    assert Open(cs, i)[..|base| + d] == Open(cs, i);
    if i == j {
    } else {
      StaysOpen(cs, j, |base| - 1, i + 1);
      assert Open(cs, j)[..|base|] == base;
      match cs[i]
      case BeginNode(n) =>
        assert d == 0 ==> Sibling(cs, base, i);
        SubFinds(cs, i + 1, d + 1, s, base, j);
      case EndNode => SubFinds(cs, i + 1, d - 1, s, base, j);
      case Prop(_, _) => SubFinds(cs, i + 1, d, s, base, j);
      case Nop => SubFinds(cs, i + 1, d, s, base, j);
    }
  }

  /** No child stands before its namesake: among its siblings, none that comes
      first would match its name. */
  predicate FirstMatch(cs: seq<Call>, a: nat, j: nat) {
    a < |cs| && forall x :: a < x < j && Sibling(cs, Trail(cs, a), x) ==> !NameMatches(cs[x].name, NameOf(cs, j))
  }

  /** So for the node and each of its ancestors below the root. */
  predicate Unshadowed(cs: seq<Call>, trail: seq<nat>, i: nat)
    requires i < |trail|
    decreases |trail| - i
  {
    i == |trail| - 1 || (FirstMatch(cs, trail[i], trail[i + 1]) && Unshadowed(cs, trail, i + 1))
  }

  /** Names below position `i` of a trail. */
  function NamesFrom(cs: seq<Call>, trail: seq<nat>, i: nat): (r: seq<seq<byte>>)
    requires i <= |trail|
    ensures |r| == |trail| - i
    decreases |trail| - i
  {
    if i == |trail| then [] else [NameOf(cs, trail[i])] + NamesFrom(cs, trail, i + 1)
  }

  /** The trail of a node on the trail. */
  lemma TrailPrefix(cs: seq<Call>, k: nat, i: nat)
    requires k < |cs| && cs[k].BeginNode? && i < |Trail(cs, k)|
    ensures var a := Trail(cs, k)[i]; a <= k && cs[a].BeginNode? && Trail(cs, a) == Trail(cs, k)[..i + 1]
  {
    var t := Trail(cs, k);
    if i < |Open(cs, k)| {
      OpenIsNode(cs, k, i);
      var a := t[i];
      StaysOpen(cs, k, i, a + 1);
      assert Open(cs, a + 1) == Trail(cs, a);
      OpenBound(cs, a + 1, i);
      assert t[..i + 1] == Open(cs, k)[..i + 1];
    } else {
      assert t[..i + 1] == t;
    }
  }

  /** Open nodes are numbered upwards, so the last one opened is on top. */
  lemma {:induction false} OpenSorted(cs: seq<Call>, i: nat, x: nat, y: nat)
    requires i <= |cs| && x < y < |Open(cs, i)|
    ensures Open(cs, i)[x] < Open(cs, i)[y]
  {
    var s := Open(cs, i - 1);
    if y < |s| {
      OpenSorted(cs, i - 1, x, y);
    } else {
      OpenIsNode(cs, i - 1, x);
    }
  }

  lemma OpenBound(cs: seq<Call>, i: nat, p: nat)
    requires 0 < i <= |cs| && p < |Open(cs, i)| && Open(cs, i)[p] == i - 1
    ensures |Open(cs, i)| == p + 1 && Open(cs, i)[..p + 1] == Open(cs, i)
  {
    if p + 1 < |Open(cs, i)| {
      OpenSorted(cs, i, p, p + 1);
      OpenIsNode(cs, i, p + 1);
      assert false;
    }
  }

  /** Resolving names leads to a node below the start. */
  lemma {:induction false} ResolveTrail(cs: seq<Call>, j: nat, names: seq<seq<byte>>)
    requires j < |cs| && cs[j].BeginNode? && Resolve(cs, j, names).Some?
    ensures var r := Resolve(cs, j, names).value;
            && cs[r].BeginNode? && |Trail(cs, r)| == |Trail(cs, j)| + |names|
            && Trail(cs, r)[..|Trail(cs, j)|] == Trail(cs, j)
    decreases |names|
  {
    hide NameMatches, SubIndex;
    if names == [] {
      assert Trail(cs, j)[..|Trail(cs, j)|] == Trail(cs, j);
    } else {
      assert Open(cs, j + 1) == Trail(cs, j) && Trail(cs, j)[..|Trail(cs, j)|] == Trail(cs, j);
      SubFound(cs, j + 1, 0, names[0], Trail(cs, j));
      var x := SubIndex(cs, j + 1, 0, names[0]).value;
      ResolveTrail(cs, x, names[1..]);
      var r := Resolve(cs, x, names[1..]).value;
      assert Trail(cs, j) == Trail(cs, x)[..|Trail(cs, j)|];
      assert Trail(cs, r)[..|Trail(cs, x)|][..|Trail(cs, j)|] == Trail(cs, r)[..|Trail(cs, j)|];
    }
  }

  /** One level: the child on the trail is the one found exactly when it is the
      first that matches. */
  lemma ChildOnTrail(cs: seq<Call>, k: nat, i: nat)
    requires PathTree(cs) && k < |cs| && cs[k].BeginNode? && i + 1 < |Trail(cs, k)|
    ensures var a, j := Trail(cs, k)[i], Trail(cs, k)[i + 1];
            && a < j < |cs| && cs[a].BeginNode? && cs[j].BeginNode? && Open(cs, j) == Trail(cs, a)
            && (SubIndex(cs, a + 1, 0, cs[j].name) == Some(j) <==> FirstMatch(cs, a, j))
  {
    hide NameMatches, SubIndex;
    TrailPrefix(cs, k, i);
    TrailPrefix(cs, k, i + 1);
    var t := Trail(cs, k);
    var a, j := t[i], t[i + 1];
    var base := Trail(cs, a);
    assert Trail(cs, j)[..i + 1] == Open(cs, j) && t[..i + 2][..i + 1] == t[..i + 1];
    assert Open(cs, a + 1) == base && base[..|base|] == base;
    assert base[|base| - 1] == a;
    OpenIsNode(cs, j, i);
    SelfMatches(cs[j].name);
    if SubIndex(cs, a + 1, 0, cs[j].name) == Some(j) {
      SubFound(cs, a + 1, 0, cs[j].name, base);
    }
    if FirstMatch(cs, a, j) {
      SubFinds(cs, a + 1, 0, cs[j].name, base, j);
    }
  }

  lemma SelfMatches(s: seq<byte>)
    ensures NameMatches(s, s)
  {
  }

  /** Resolving the names below a point of the trail leads to its end, exactly
      when no sibling stands in the way from there on. */
  lemma {:induction false} ResolveAlong(cs: seq<Call>, k: nat, i: nat)
    requires PathTree(cs) && k < |cs| && cs[k].BeginNode? && i < |Trail(cs, k)|
    ensures Trail(cs, k)[i] < |cs|
    ensures Resolve(cs, Trail(cs, k)[i], NamesFrom(cs, Trail(cs, k), i + 1)) == Some(k) <==>
              Unshadowed(cs, Trail(cs, k), i)
    decreases |Trail(cs, k)| - i
  {
    hide NameMatches, SubIndex, FirstMatch, Open;
    var t := Trail(cs, k);
    if i == |t| - 1 {
      assert t[i] == k;
    } else {
      ChildOnTrail(cs, k, i);
      ResolveAlong(cs, k, i + 1);
      var a, j := t[i], t[i + 1];
      var names := NamesFrom(cs, t, i + 1);
      assert names[0] == cs[j].name && names[1..] == NamesFrom(cs, t, i + 2);
      var found := SubIndex(cs, a + 1, 0, cs[j].name);
      if found.Some? && Resolve(cs, found.value, names[1..]) == Some(k) {
        SameBranch(cs, k, i, found.value, names[1..]);
      }
    }
  }

  /** Only the child on the trail leads to `k`. */
  lemma SameBranch(cs: seq<Call>, k: nat, i: nat, x: nat, names: seq<seq<byte>>)
    requires k < |cs| && cs[k].BeginNode? && i + 1 < |Trail(cs, k)| && Trail(cs, k)[i] < |cs|
    requires SubIndex(cs, Trail(cs, k)[i] + 1, 0, NameOf(cs, Trail(cs, k)[i + 1])) == Some(x)
    requires x < |cs| && Resolve(cs, x, names) == Some(k)
    ensures x == Trail(cs, k)[i + 1]
  {
    hide NameMatches, SubIndex;
    var t := Trail(cs, k);
    TrailPrefix(cs, k, i);
    var a := t[i];
    assert Open(cs, a + 1) == Trail(cs, a) && Trail(cs, a)[..|Trail(cs, a)|] == Trail(cs, a);
    SubFound(cs, a + 1, 0, NameOf(cs, t[i + 1]), Trail(cs, a));
    ResolveTrail(cs, x, names);
    assert t[..i + 2][i + 1] == Trail(cs, x)[i + 1] == x;
  }

  // ---- the printed path, taken apart again

  /** The names below position `i` of a trail that are not empty: a resolver
      sees no component between two adjacent slashes. */
  function Kept(cs: seq<Call>, trail: seq<nat>, i: nat): (r: seq<seq<byte>>)
    requires i <= |trail|
    ensures |r| <= |trail| - i
    decreases |trail| - i
  {
    if i == |trail| then []
    else if NameOf(cs, trail[i]) == [] then Kept(cs, trail, i + 1)
    else [NameOf(cs, trail[i])] + Kept(cs, trail, i + 1)
  }

  predicate Named(cs: seq<Call>, trail: seq<nat>, i: nat)
    requires i <= |trail|
    decreases |trail| - i
  {
    i == |trail| || (NameOf(cs, trail[i]) != [] && Named(cs, trail, i + 1))
  }

  lemma {:induction false} KeptAll(cs: seq<Call>, trail: seq<nat>, i: nat)
    requires i <= |trail|
    ensures Named(cs, trail, i) ==> Kept(cs, trail, i) == NamesFrom(cs, trail, i)
    ensures !Named(cs, trail, i) ==> |Kept(cs, trail, i)| < |trail| - i
    decreases |trail| - i
  {
    if i < |trail| {
      KeptAll(cs, trail, i + 1);
    }
  }

  lemma {:induction false} JoinPrefix(cs: seq<Call>, xs: seq<nat>, m: nat)
    requires m <= |xs|
    ensures var n := |Join(cs, xs[..m])|; n <= |Join(cs, xs)| && Join(cs, xs)[..n] == Join(cs, xs[..m])
    decreases |xs|
  {
    if m < |xs| {
      JoinPrefix(cs, xs[..|xs| - 1], m);
      assert xs[..|xs| - 1][..m] == xs[..m];
    } else {
      assert xs[..m] == xs;
    }
  }

  /** The name at position `i` of the trail lies at its place in the joined path. */
  lemma JoinAt(cs: seq<Call>, xs: seq<nat>, i: nat, p: nat)
    requires i < |xs| && p == |Join(cs, xs[..i])|
    ensures var s, n := Join(cs, xs), NameOf(cs, xs[i]);
            p + |n| + 1 <= |s| && s[p..p + |n|] == n && s[p + |n|] == SLASH && p + |n| + 1 == |Join(cs, xs[..i + 1])|
  {
    hide Join;
    JoinSnoc(cs, xs, i);
    JoinPrefix(cs, xs, i + 1);
    var s, n, pre := Join(cs, xs), NameOf(cs, xs[i]), Join(cs, xs[..i]);
    var all := pre + n + [SLASH];
    assert s[..|all|] == all;
    assert all[p..p + |n|] == n && all[p + |n|] == SLASH;
    assert s[..|all|][p..p + |n|] == s[p..p + |n|];
  }

  /** A component ends at the slash that follows it. */
  lemma {:induction false} NextSlashIs(path: seq<byte>, i: nat, q: nat)
    requires i <= q <= |path| && SLASH !in path[i..q] && (q < |path| ==> path[q] == SLASH)
    ensures NextSlash(path, i) == q
    decreases q - i
  {
    if i < q {
      assert path[i..q][0] == path[i];
      assert path[i..q][1..] == path[i + 1..q];
      NextSlashIs(path, i + 1, q);
    }
  }

  /** Taking the printed path apart from the place of name `i` on. */
  lemma {:induction false} CompsOf(cs: seq<Call>, xs: seq<nat>, path: seq<byte>, i: nat, p: nat)
    requires i <= |xs| && p == |Join(cs, xs[..i])| && xs != []
    requires forall j :: 0 <= j < |xs| ==> SLASH !in NameOf(cs, xs[j])
    requires |path| + 1 == |Join(cs, xs)| && path == Join(cs, xs)[..|path|]
    ensures i < |xs| ==> p <= |path| && Comps(path, p) == Kept(cs, xs, i)
    decreases |xs| - i
  {
    hide Join;
    if i < |xs| {
      var s, n := Join(cs, xs), NameOf(cs, xs[i]);
      JoinAt(cs, xs, i, p);
      var q := p + |n|;
      CompsOf(cs, xs, path, i + 1, q + 1);
      assert path[p..q] == s[..|path|][p..q] == s[p..q];
      LastName(cs, xs, i, q + 1);
      assert q < |path| ==> path[q] == SLASH && Comps(path, q) == Comps(path, q + 1);
      assert Comps(path, q) == Kept(cs, xs, i + 1);
      NextSlashIs(path, p, q);
      if n != [] {
        assert path[p..q][0] == path[p];
      }
    }
  }

  lemma LastName(cs: seq<Call>, xs: seq<nat>, i: nat, q: nat)
    requires i < |xs| && q == |Join(cs, xs[..i + 1])|
    ensures i + 1 == |xs| ==> q == |Join(cs, xs)|
    ensures i + 1 < |xs| ==> q < |Join(cs, xs)|
  {
    hide Join;
    if i + 1 < |xs| {
      JoinAt(cs, xs, i + 1, q);
    } else {
      assert xs[..i + 1] == xs;
    }
  }

  /** The root is on top of every trail. */
  lemma RootFirst(cs: seq<Call>, k: nat)
    requires SingleRoot(cs) && k < |cs| && cs[k].BeginNode?
    ensures Trail(cs, k)[0] == 0
  {
    TrailPrefix(cs, k, 0);
    var a := Trail(cs, k)[0];
    assert |Trail(cs, a)| == 1;
    assert Open(cs, a) == [];
  }

  lemma CompsOfPath(cs: seq<Call>, k: nat)
    requires PathTree(cs) && cs[0].name == [] && k < |cs| && cs[k].BeginNode?
    ensures |PathOf(cs, k)| > 0 && PathOf(cs, k)[0] == SLASH
    ensures Comps(PathOf(cs, k), 0) == Kept(cs, Trail(cs, k), 1)
  {
    hide Open;
    var t, path := Trail(cs, k), PathOf(cs, k);
    RootFirst(cs, k);
    assert t[..0] == [];
    JoinAt(cs, t, 0, 0);
    LastName(cs, t, 0, 1);
    if |t| == 1 {
      assert Comps(path, 1) == [];
    } else {
      forall j | 0 <= j < |t|
        ensures SLASH !in NameOf(cs, t[j])
      {
        TrailNoSlash(cs, k, j);
      }
      CompsOf(cs, t, path, 1, 1);
      assert Comps(path, 0) == Comps(path, 1);
    }
  }

  /** The path round trip: resolving the printed path of a node leads back to
      that node exactly when no name below the root on it is empty and no
      earlier sibling of it or of an ancestor answers to its name. */
  lemma PathRoundTrip(cs: seq<Call>, k: nat)
    requires PathTree(cs) && cs[0].name == [] && k < |cs| && cs[k].BeginNode?
    ensures Resolve(cs, 0, Comps(PathOf(cs, k), 0)) == Some(k) <==>
              Named(cs, Trail(cs, k), 1) && Unshadowed(cs, Trail(cs, k), 0)
  {
    hide Open, Join, Comps, PathOf;
    var t := Trail(cs, k);
    RootFirst(cs, k);
    CompsOfPath(cs, k);
    KeptAll(cs, t, 1);
    ResolveAlong(cs, k, 0);
    if Resolve(cs, 0, Kept(cs, t, 1)) == Some(k) {
      ResolveTrail(cs, 0, Kept(cs, t, 1));
      RootFirst(cs, 0);
      RootTrail(cs);
    }
  }

  lemma RootTrail(cs: seq<Call>)
    requires |cs| > 0
    ensures |Trail(cs, 0)| == 1
  {
  }

  /** So fdt_path_offset of what fdt_get_path printed is the same offset. */
  lemma PathOffsetRoundTrip(h: Header, b: seq<byte>, cs: seq<Call>, k: nat, nodeoffset: int, r: int)
    requires Complete(h, b, cs) && PathTree(cs) && cs[0].name == [] && Points(h, b, cs, k, nodeoffset)
    requires cs[k].BeginNode?
    requires match Resolve(cs, 0, Comps(PathOf(cs, k), 0))
             case Some(j) => Points(h, b, cs, j, r)
             case None => r == -ERR_NOTFOUND
    ensures r == nodeoffset <==> Named(cs, Trail(cs, k), 1) && Unshadowed(cs, Trail(cs, k), 0)
  {
    hide Complete, Open, Join, Comps, PathOf, Resolve, Unshadowed, Named;
    PathRoundTrip(cs, k);
    PointsAligned(h, b, cs, k, nodeoffset);
    match Resolve(cs, 0, Comps(PathOf(cs, k), 0))
    case Some(j) =>
      if j <= k {
        OffMono(h, b, cs, j, k);
      } else {
        OffMono(h, b, cs, k, j);
      }
    case None =>
  }

  // ---- trees

  /** A whole hedge leaves the same nodes open, and closes none of them meanwhile. */
  lemma {:induction false} OpenOver(cs: seq<Call>, i: nat, t: Hedge, x: nat)
    requires i + |Flat(t)| <= |cs| && Lies(cs, i, Flat(t)) && i <= x <= i + |Flat(t)|
    ensures Open(cs, i + |Flat(t)|) == Open(cs, i) && |Open(cs, x)| >= |Open(cs, i)|
    decreases t
  {
    hide Lies, Open;
    assert Flat(Nil) == [];
    hide Flat;
    match t
    case Nil =>
    case PropH(k, v, r) =>
      LiesProp(cs, i, k, v, r);
      OpenSame(cs, i);
      OpenOver(cs, i + 1, r, if x <= i then i + 1 else x);
    case NopH(r) =>
      LiesNop(cs, i, r);
      OpenSame(cs, i);
      OpenOver(cs, i + 1, r, if x <= i then i + 1 else x);
    case NodeH(n, b, r) =>
      LiesNode(cs, i, n, b, r);
      OpenNode(cs, i, n, b);
      var e := i + 2 + |Flat(b)|;
      if i < x < e {
        OpenOver(cs, i + 1, b, x);
      }
      OpenOver(cs, i + 1, b, i + 1);
      OpenOver(cs, e, r, if x < e then e else x);
  }

  lemma OpenSame(cs: seq<Call>, i: nat)
    requires i < |cs| && (cs[i].Prop? || cs[i].Nop?)
    ensures Open(cs, i + 1) == Open(cs, i)
  {
  }

  lemma OpenNode(cs: seq<Call>, i: nat, n: seq<byte>, b: Hedge)
    requires i + 1 + |Flat(b)| < |cs| && cs[i] == BeginNode(n) && cs[i + 1 + |Flat(b)|] == EndNode
    ensures Open(cs, i + 1) == Open(cs, i) + [i]
    ensures Open(cs, i + 1 + |Flat(b)|) == Open(cs, i + 1) ==> Open(cs, i + 2 + |Flat(b)|) == Open(cs, i)
  {
  }

  /** The blob of a tree with one root meets what printing and resolving need. */
  lemma TreePaths(name: seq<byte>, body: Hedge)
    requires NoSlashes(Flat(NodeH(name, body, Nil)))
    ensures PathTree(Flat(NodeH(name, body, Nil)) + [End])
  {
    var t := NodeH(name, body, Nil);
    var cs := Flat(t) + [End];
    assert Flat(Nil) == [];
    NodeTokens(t, 0);
    hide Flat, Lies;
    forall i | 0 < i < |cs| && cs[i].BeginNode?
      ensures Open(cs, i) != []
    {
      OpenNode(cs, 0, name, body);
      OpenOver(cs, 1, body, i);
    }
    forall i | 0 <= i < |cs| - 1
      ensures !cs[i].End?
    {
      FlatNoEnd(t, i);
    }
  }

  // ---- a sibling in the way

  /** A root with two subnodes, "a@1" and "a". */
  const SHADOWED: seq<Call> :=
    [BeginNode([]), BeginNode([0x61, 0x40, 0x31]), EndNode, BeginNode([0x61]), EndNode, EndNode, End]

  lemma ShadowedOpen()
    ensures Open(SHADOWED, 0) == [] && Open(SHADOWED, 1) == [0] && Open(SHADOWED, 2) == [0, 1]
    ensures Open(SHADOWED, 3) == [0] && Open(SHADOWED, 4) == [0, 3]
  {
    assert Open(SHADOWED, 1) == [] + [0];
    assert Open(SHADOWED, 2) == [0] + [1];
    assert Open(SHADOWED, 3) == [0, 1][..1];
    assert Open(SHADOWED, 4) == [0] + [3];
  }

  /** The path of the second one is "/a", which leads to the first. */
  lemma ShadowedPath()
    ensures PathTree(SHADOWED) && !Unshadowed(SHADOWED, Trail(SHADOWED, 3), 0)
    ensures Resolve(SHADOWED, 0, Comps(PathOf(SHADOWED, 3), 0)) != Some(3)
    ensures SubIndex(SHADOWED, 1, 0, [0x61]) == Some(1)
  {
    ShadowedOpen();
    hide Open, Join, Comps, PathOf;
    assert NameMatches([0x61, 0x40, 0x31], [0x61]);
    assert PathTree(SHADOWED);
    assert Trail(SHADOWED, 3) == [0, 3] && Trail(SHADOWED, 0) == [0];
    assert Sibling(SHADOWED, Trail(SHADOWED, 0), 1);
    assert !FirstMatch(SHADOWED, 0, 3);
    PathRoundTrip(SHADOWED, 3);
  }
}
