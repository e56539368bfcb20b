/** The tree that a token sequence spells out, with no-ops kept in place, and
    edits on it.  A hedge is a list of properties, no-ops and nodes; a node
    contains a hedge. */
module Hedges {
  import opened Bytes
  import opened Tokens

  datatype Hedge =
    | Nil
    | PropH(key: seq<byte>, value: seq<byte>, rest: Hedge)
    | NopH(rest: Hedge)
    | NodeH(name: seq<byte>, body: Hedge, rest: Hedge)

  /** Depth-first spelling. */
  function Flat(t: Hedge): seq<Call> {
    match t
    case Nil => []
    case PropH(k, v, r) => [Prop(k, v)] + Flat(r)
    case NopH(r) => [Nop] + Flat(r)
    case NodeH(n, b, r) => [BeginNode(n)] + Flat(b) + [EndNode] + Flat(r)
  }

  function Append(s: Hedge, t: Hedge): Hedge {
    match s
    case Nil => t
    case PropH(k, v, r) => PropH(k, v, Append(r, t))
    case NopH(r) => NopH(Append(r, t))
    case NodeH(n, b, r) => NodeH(n, b, Append(r, t))
  }

  lemma Assoc<T>(a: seq<T>, b: seq<T>, c: seq<T>)
    ensures a + b + c == a + (b + c)
  {
  }

  /** Surrounding a sequence in three parts widens its outer parts. */
  lemma Widen<T>(x: seq<T>, pre: seq<T>, mid: seq<T>, post: seq<T>, y: seq<T>)
    ensures x + (pre + mid + post) + y == (x + pre) + mid + (post + y)
  {
    Assoc(pre, mid, post);
    Assoc(x, pre, mid + post);
    Assoc(x + pre, mid, post);
    Assoc(x + pre + mid, post, y);
  }

  lemma ThreeParts<T>(pre: seq<T>, mid: seq<T>, post: seq<T>)
    ensures var s := pre + mid + post;
            s[..|pre|] == pre && s[|pre|..|pre| + |mid|] == mid && s[|pre| + |mid|..] == post
  {
  }

  lemma {:induction false} FlatAppend(s: Hedge, t: Hedge)
    ensures Flat(Append(s, t)) == Flat(s) + Flat(t)
  {
    match s
    case Nil =>
    case PropH(k, v, r) => FlatAppend(r, t); Assoc([Prop(k, v)], Flat(r), Flat(t));
    case NopH(r) => FlatAppend(r, t); Assoc([Nop], Flat(r), Flat(t));
    case NodeH(n, b, r) => FlatAppend(r, t); Assoc([BeginNode(n)] + Flat(b) + [EndNode], Flat(r), Flat(t));
  }

  /** No END token inside a hedge. */
  lemma {:induction false} FlatNoEnd(t: Hedge, i: nat)
    requires i < |Flat(t)|
    ensures !Flat(t)[i].End?
  {
    match t
    case PropH(k, v, r) => if i > 0 { FlatNoEnd(r, i - 1); }
    case NopH(r) => if i > 0 { FlatNoEnd(r, i - 1); }
    case NodeH(n, b, r) =>
      if 0 < i <= |Flat(b)| {
        FlatNoEnd(b, i - 1);
      } else if i > |Flat(b)| + 1 {
        FlatNoEnd(r, i - 2 - |Flat(b)|);
      }
  }

  /** Token `k` of the spelling opens a node. */
  predicate IsNode(t: Hedge, k: nat) {
    k < |Flat(t)| && Flat(t)[k].BeginNode?
  }

  /** Where token `k` falls in a hedge that starts with a node. */
  lemma NodeIndex(t: Hedge, k: nat)
    requires t.NodeH? && IsNode(t, k)
    ensures k == 0 || (1 <= k <= |Flat(t.body)| && IsNode(t.body, k - 1))
                   || (k >= 2 + |Flat(t.body)| && IsNode(t.rest, k - 2 - |Flat(t.body)|))
  {
  }

  /** What the node opened by token `k` contains. */
  function BodyAt(t: Hedge, k: nat): Hedge
    requires IsNode(t, k)
    decreases t
  {
    match t
    case PropH(_, _, r) => BodyAt(r, k - 1)
    case NopH(r) => BodyAt(r, k - 1)
    case NodeH(_, b, r) =>
      NodeIndex(t, k);
      if k == 0 then b else if k <= |Flat(b)| then BodyAt(b, k - 1) else BodyAt(r, k - 2 - |Flat(b)|)
  }

  /** The hedge with the node opened by token `k` replaced by the items of `m`. */
  function ReplaceAt(t: Hedge, k: nat, m: Hedge): Hedge
    requires IsNode(t, k)
    decreases t
  {
    match t
    case PropH(key, v, r) => PropH(key, v, ReplaceAt(r, k - 1, m))
    case NopH(r) => NopH(ReplaceAt(r, k - 1, m))
    case NodeH(n, b, r) =>
      NodeIndex(t, k);
      if k == 0 then Append(m, r)
      else if k <= |Flat(b)| then NodeH(n, ReplaceAt(b, k - 1, m), r)
      else NodeH(n, b, ReplaceAt(r, k - 2 - |Flat(b)|, m))
  }

  /** Token just past the node opened by token `k`. */
  function NodeEnd(t: Hedge, k: nat): nat
    requires IsNode(t, k)
  {
    k + |Flat(BodyAt(t, k))| + 2
  }

  /** The spelling of the node opened by token `k`. */
  function NodeFlat(t: Hedge, k: nat): (s: seq<Call>)
    requires IsNode(t, k)
  {
    [Flat(t)[k]] + Flat(BodyAt(t, k)) + [EndNode]
  }

  /** What surrounds a node surrounds whatever replaces it. */
  lemma {:induction false} Focus(t: Hedge, k: nat, m: Hedge) returns (pre: seq<Call>, post: seq<Call>)
    requires IsNode(t, k)
    ensures |pre| == k
    ensures Flat(t) == pre + NodeFlat(t, k) + post
    ensures Flat(ReplaceAt(t, k, m)) == pre + Flat(m) + post
    decreases t, 0
  {
    match t
    case PropH(key, v, r) =>
      pre, post := FocusRest([Prop(key, v)], t, r, k, m);
    case NopH(r) =>
      pre, post := FocusRest([Nop], t, r, k, m);
    case NodeH(n, b, r) =>
      NodeIndex(t, k);
      if k == 0 {
        pre, post := [], Flat(r);
        FlatAppend(m, r);
        assert [] + NodeFlat(t, 0) == NodeFlat(t, 0) && [] + Flat(m) == Flat(m);
      } else if k <= |Flat(b)| {
        pre, post := FocusBody(t, k, m);
      } else {
        pre, post := FocusRest([BeginNode(n)] + Flat(b) + [EndNode], t, r, k, m);
      }
  }

  /** The node lies inside the first node. */
  lemma {:induction false} FocusBody(t: Hedge, k: nat, m: Hedge) returns (pre: seq<Call>, post: seq<Call>)
    requires t.NodeH? && IsNode(t, k) && 0 < k <= |Flat(t.body)| && IsNode(t.body, k - 1)
    ensures |pre| == k
    ensures Flat(t) == pre + NodeFlat(t, k) + post
    ensures Flat(ReplaceAt(t, k, m)) == pre + Flat(m) + post
    decreases t.body, 1
  {
    var b, x, e := t.body, [BeginNode(t.name)], [Token<seq<byte>>.EndNode];
    var p, q := Focus(b, k - 1, m);
    var y := e + Flat(t.rest);
    pre, post := x + p, q + y;
    Assoc(x + Flat(b), e, Flat(t.rest));
    Assoc(x + Flat(ReplaceAt(b, k - 1, m)), e, Flat(t.rest));
    Widen(x, p, NodeFlat(b, k - 1), q, y);
    Widen(x, p, Flat(m), q, y);
    assert Flat(t)[k] == Flat(b)[k - 1];
  }

  /** The node lies in the rest of the hedge. */
  lemma {:induction false} FocusRest(x: seq<Call>, t: Hedge, r: Hedge, k: nat, m: Hedge)
    returns (pre: seq<Call>, post: seq<Call>)
    requires IsNode(t, k) && k >= |x| && Flat(t) == x + Flat(r) && IsNode(r, k - |x|)
    requires Flat(ReplaceAt(t, k, m)) == x + Flat(ReplaceAt(r, k - |x|, m)) && BodyAt(t, k) == BodyAt(r, k - |x|)
    ensures |pre| == k
    ensures Flat(t) == pre + NodeFlat(t, k) + post
    ensures Flat(ReplaceAt(t, k, m)) == pre + Flat(m) + post
    decreases r, 1
  {
    var p, q := Focus(r, k - |x|, m);
    pre, post := x + p, q + [];
    Widen(x, p, NodeFlat(r, k - |x|), q, []);
    Widen(x, p, Flat(m), q, []);
    assert Flat(t)[k] == Flat(r)[k - |x|];
  }

  /** A node spells its opening, its body and its closing, side by side. */
  lemma FlatNode(t: Hedge, k: nat)
    requires IsNode(t, k)
    ensures NodeEnd(t, k) <= |Flat(t)|
    ensures Flat(t)[k..NodeEnd(t, k)] == NodeFlat(t, k)
  {
    var pre, post := Focus(t, k, Nil);
    ThreeParts(pre, NodeFlat(t, k), post);
  }

  /** Replacing a node replaces its spelling and nothing else. */
  lemma FlatReplace(t: Hedge, k: nat, m: Hedge)
    requires IsNode(t, k)
    ensures NodeEnd(t, k) <= |Flat(t)|
    ensures Flat(ReplaceAt(t, k, m)) == Flat(t)[..k] + Flat(m) + Flat(t)[NodeEnd(t, k)..]
  {
    var pre, post := Focus(t, k, m);
    ThreeParts(pre, NodeFlat(t, k), post);
  }

  // ---- no-ops

  /** The tree proper: no-ops dropped. */
  function Erase(t: Hedge): Hedge {
    match t
    case Nil => Nil
    case PropH(k, v, r) => PropH(k, v, Erase(r))
    case NopH(r) => Erase(r)
    case NodeH(n, b, r) => NodeH(n, Erase(b), Erase(r))
  }

  function Nops(n: nat): Hedge {
    if n == 0 then Nil else NopH(Nops(n - 1))
  }

  lemma {:induction false} FlatNops(n: nat)
    ensures Flat(Nops(n)) == NopTokens<seq<byte>>(n)
  {
    if n > 0 {
      FlatNops(n - 1);
      assert [Token<seq<byte>>.Nop] + NopTokens<seq<byte>>(n - 1) == NopTokens<seq<byte>>(n);
    }
  }

  lemma {:induction false} EraseAppend(s: Hedge, t: Hedge)
    ensures Erase(Append(s, t)) == Append(Erase(s), Erase(t))
  {
    match s
    case Nil =>
    case PropH(k, v, r) => EraseAppend(r, t);
    case NopH(r) => EraseAppend(r, t);
    case NodeH(n, b, r) => EraseAppend(r, t);
  }

  lemma {:induction false} EraseNops(n: nat)
    ensures Erase(Nops(n)) == Nil
  {
    if n > 0 {
      EraseNops(n - 1);
    }
  }

  /** Replacements that mean the same give trees that mean the same. */
  lemma {:induction false} EraseReplace(t: Hedge, k: nat, m: Hedge, m': Hedge)
    requires IsNode(t, k) && Erase(m) == Erase(m')
    ensures Erase(ReplaceAt(t, k, m)) == Erase(ReplaceAt(t, k, m'))
    decreases t
  {
    match t
    case PropH(_, _, r) => EraseReplace(r, k - 1, m, m');
    case NopH(r) => EraseReplace(r, k - 1, m, m');
    case NodeH(n, b, r) =>
      NodeIndex(t, k);
      if k == 0 {
        EraseAppend(m, r);
        EraseAppend(m', r);
      } else if k <= |Flat(b)| {
        EraseReplace(b, k - 1, m, m');
      } else {
        EraseReplace(r, k - 2 - |Flat(b)|, m, m');
      }
  }

  // ---- the properties of one node

  /** The property of that name among those before the first subnode. */
  function Lookup(b: Hedge, name: seq<byte>): Option<seq<byte>> {
    match b
    case PropH(k, v, r) => if k == name then Some(v) else Lookup(r, name)
    case NopH(r) => Lookup(r, name)
    case _ => None
  }

  /** The hedge with the first property of that name replaced by `m`. */
  function ReplaceProp(b: Hedge, name: seq<byte>, m: Hedge): Hedge {
    match b
    case PropH(k, v, r) => if k == name then Append(m, r) else PropH(k, v, ReplaceProp(r, name, m))
    case NopH(r) => NopH(ReplaceProp(r, name, m))
    case _ => b
  }

  /** Position of that property in the spelling of the body. */
  function PropIndex(b: Hedge, name: seq<byte>): nat
    requires Lookup(b, name).Some?
  {
    match b
    case PropH(k, _, r) => if k == name then 0 else 1 + PropIndex(r, name)
    case NopH(r) => 1 + PropIndex(r, name)
  }

  lemma {:induction false} FocusProp(b: Hedge, name: seq<byte>, m: Hedge) returns (pre: seq<Call>, post: seq<Call>)
    requires Lookup(b, name).Some?
    ensures |pre| == PropIndex(b, name)
    ensures Flat(b) == pre + [Prop(name, Lookup(b, name).value)] + post
    ensures Flat(ReplaceProp(b, name, m)) == pre + Flat(m) + post
    decreases b, 0
  {
    match b
    case PropH(k, v, r) =>
      if k == name {
        pre, post := [], Flat(r);
        FlatAppend(m, r);
        assert [] + Flat(m) == Flat(m);
      } else {
        pre, post := FocusPropRest(Prop(k, v), b, r, name, m);
      }
    case NopH(r) =>
      pre, post := FocusPropRest(Nop, b, r, name, m);
  }

  lemma {:induction false} FocusPropRest(x: Call, b: Hedge, r: Hedge, name: seq<byte>, m: Hedge)
    returns (pre: seq<Call>, post: seq<Call>)
    requires Flat(b) == [x] + Flat(r) && Lookup(b, name) == Lookup(r, name) && Lookup(r, name).Some?
    requires Flat(ReplaceProp(b, name, m)) == [x] + Flat(ReplaceProp(r, name, m))
    requires PropIndex(b, name) == 1 + PropIndex(r, name)
    ensures |pre| == PropIndex(b, name)
    ensures Flat(b) == pre + [Prop(name, Lookup(b, name).value)] + post
    ensures Flat(ReplaceProp(b, name, m)) == pre + Flat(m) + post
    decreases r, 1
  {
    var p, q := FocusProp(r, name, m);
    pre, post := [x] + p, q + [];
    Widen([x], p, [Prop(name, Lookup(b, name).value)], q, []);
    Widen([x], p, Flat(m), q, []);
  }

  lemma FlatProp(b: Hedge, name: seq<byte>, m: Hedge)
    requires Lookup(b, name).Some?
    ensures var j := PropIndex(b, name);
            j < |Flat(b)| && Flat(b)[j] == Prop(name, Lookup(b, name).value)
            && Flat(ReplaceProp(b, name, m)) == Flat(b)[..j] + Flat(m) + Flat(b)[j + 1..]
  {
    var pre, post := FocusProp(b, name, m);
    ThreeParts(pre, [Prop(name, Lookup(b, name).value)], post);
  }

  lemma {:induction false} EraseReplaceProp(b: Hedge, name: seq<byte>, m: Hedge, m': Hedge)
    requires Erase(m) == Erase(m')
    ensures Erase(ReplaceProp(b, name, m)) == Erase(ReplaceProp(b, name, m'))
  {
    match b
    case PropH(k, v, r) =>
      if k == name {
        EraseAppend(m, r);
        EraseAppend(m', r);
      } else {
        EraseReplaceProp(r, name, m, m');
      }
    case NopH(r) => EraseReplaceProp(r, name, m, m');
    case _ =>
  }

  /** Setting a property: in place if the node has it, else first in the node. */
  function SetProp(b: Hedge, name: seq<byte>, v: seq<byte>): Hedge {
    if Lookup(b, name).Some? then ReplaceProp(b, name, PropH(name, v, Nil)) else PropH(name, v, b)
  }

  /** A property that was set is found, and the others are what they were. */
  lemma {:induction false} SetPropLookup(b: Hedge, name: seq<byte>, v: seq<byte>, other: seq<byte>)
    ensures Lookup(SetProp(b, name, v), other) == if other == name then Some(v) else Lookup(b, other)
  {
    if Lookup(b, name).Some? {
      ReplaceLookup(b, name, v, other);
    }
  }

  lemma {:induction false} ReplaceLookup(b: Hedge, name: seq<byte>, v: seq<byte>, other: seq<byte>)
    requires Lookup(b, name).Some?
    ensures Lookup(ReplaceProp(b, name, PropH(name, v, Nil)), other) ==
            if other == name then Some(v) else Lookup(b, other)
  {
    match b
    case PropH(k, _, r) =>
      if k == name {
        assert Append(PropH(name, v, Nil), r) == PropH(name, v, Append(Nil, r));
      } else {
        ReplaceLookup(r, name, v, other);
      }
    case NopH(r) => ReplaceLookup(r, name, v, other);
  }

  // ---- hedges inside longer token sequences

  /** The stretch `s` lies at index `i`. */
  predicate Lies<T(==)>(cs: seq<T>, i: nat, s: seq<T>) {
    i + |s| <= |cs| && cs[i..i + |s|] == s
  }

  lemma LiesConcat<T>(cs: seq<T>, i: nat, a: seq<T>, b: seq<T>)
    requires Lies(cs, i, a + b)
    ensures Lies(cs, i, a) && Lies(cs, i + |a|, b)
  {
    var s := a + b;
    assert s[0..|a|] == a && s[|a|..|s|] == b;
    SliceSlice(cs, i, i + |s|, 0, |a|);
    SliceSlice(cs, i, i + |s|, |a|, |s|);
  }

  lemma LiesOne<T>(cs: seq<T>, i: nat, x: T)
    requires Lies(cs, i, [x])
    ensures i < |cs| && cs[i] == x
  {
    assert cs[i] == cs[i..i + 1][0];
  }

  lemma LiesProp(cs: seq<Call>, i: nat, k: seq<byte>, v: seq<byte>, r: Hedge)
    requires Lies(cs, i, Flat(PropH(k, v, r)))
    ensures i < |cs| && cs[i] == Prop(k, v) && Lies(cs, i + 1, Flat(r))
    ensures |Flat(PropH(k, v, r))| == 1 + |Flat(r)|
  {
    hide Lies;
    LiesConcat(cs, i, [Prop(k, v)], Flat(r));
    LiesOne(cs, i, Prop(k, v));
  }

  lemma LiesNop(cs: seq<Call>, i: nat, r: Hedge)
    requires Lies(cs, i, Flat(NopH(r)))
    ensures i < |cs| && cs[i] == Nop && Lies(cs, i + 1, Flat(r))
    ensures |Flat(NopH(r))| == 1 + |Flat(r)|
  {
    hide Lies;
    LiesConcat(cs, i, [Nop], Flat(r));
    LiesOne(cs, i, Nop);
  }

  lemma LiesNode(cs: seq<Call>, i: nat, n: seq<byte>, b: Hedge, r: Hedge)
    requires Lies(cs, i, Flat(NodeH(n, b, r)))
    ensures i + 1 + |Flat(b)| < |cs| && cs[i] == BeginNode(n) && cs[i + 1 + |Flat(b)|] == EndNode
    ensures Lies(cs, i + 1, Flat(b)) && Lies(cs, i + 2 + |Flat(b)|, Flat(r))
    ensures |Flat(NodeH(n, b, r))| == 2 + |Flat(b)| + |Flat(r)|
  {
    hide Lies;
    LiesConcat(cs, i, [BeginNode(n)] + Flat(b) + [EndNode], Flat(r));
    LiesConcat(cs, i, [BeginNode(n)] + Flat(b), [EndNode]);
    LiesConcat(cs, i, [BeginNode(n)], Flat(b));
    LiesOne(cs, i, BeginNode(n));
    LiesOne(cs, i + 1 + |Flat(b)|, EndNode);
  }

  /** A node inside the spelling of a whole tree. */
  lemma NodeTokens(t: Hedge, k: nat)
    requires IsNode(t, k)
    ensures var cs, body, e := Flat(t) + [End], BodyAt(t, k), NodeEnd(t, k);
            && e <= |Flat(t)|
            && cs[k] == Flat(t)[k]
            && Lies(cs, k + 1, Flat(body))
            && cs[e - 1] == EndNode
  {
    var pre, post := Focus(t, k, Nil);
    var x, f := [Flat(t)[k]], Flat(BodyAt(t, k));
    var cs := Flat(t) + [End];
    LiesSelf(pre, NodeFlat(t, k), post + [End]);
    Assoc(pre + NodeFlat(t, k), post, [End]);
    hide Lies, Flat;
    LiesConcat(cs, k, x + f, [EndNode]);
    LiesConcat(cs, k, x, f);
    LiesOne(cs, NodeEnd(t, k) - 1, EndNode);
  }

  lemma LiesSelf<T>(pre: seq<T>, s: seq<T>, post: seq<T>)
    ensures Lies(pre + s + post, |pre|, s)
  {
  }

  // ---- one tree

  /** What may follow a hedge: the end of a node or of the tree. */
  predicate Stops(p: seq<Call>) {
    p != [] && (p[0].EndNode? || p[0].End?)
  }

  /** Equal spellings, each followed by a stop, are spellings of one hedge. */
  lemma {:induction false} FlatPrefix(s: Hedge, p: seq<Call>, t: Hedge, q: seq<Call>)
    requires Stops(p) && Stops(q) && Flat(s) + p == Flat(t) + q
    ensures s == t && p == q
    decreases s
  {
    FlatHead(s, p);
    FlatHead(t, q);
    hide Flat;
    SameKind(s, p, t, q);
    match s
    case Nil =>
    case PropH(k, v, r) =>
      Same(Prop(k, v), Flat(r) + p, Prop(t.key, t.value), Flat(t.rest) + q);
      FlatPrefix(r, p, t.rest, q);
    case NopH(r) =>
      Same(Nop, Flat(r) + p, Nop, Flat(t.rest) + q);
      FlatPrefix(r, p, t.rest, q);
    case NodeH(n, b, r) =>
      var e := Token<seq<byte>>.EndNode;
      var x, y := [e] + (Flat(r) + p), [e] + (Flat(t.rest) + q);
      Same(BeginNode(n), Flat(b) + x, BeginNode(t.name), Flat(t.body) + y);
      FlatPrefix(b, x, t.body, y);
      Same(e, Flat(r) + p, e, Flat(t.rest) + q);
      FlatPrefix(r, p, t.rest, q);
  }

  lemma FlatNil(p: seq<Call>)
    ensures Flat(Nil) + p == p
  {
  }

  /** The first token of a spelling, and what follows it. */
  lemma FlatHead(s: Hedge, p: seq<Call>)
    requires Stops(p)
    ensures Flat(s) + p == Headed(s, p)
  {
    match s
    case Nil => FlatNil(p);
    case PropH(k, v, r) => Assoc([Prop(k, v)], Flat(r), p);
    case NopH(r) => Assoc([Nop], Flat(r), p);
    case NodeH(n, b, r) =>
      var x, e := [BeginNode(n)], [Token<seq<byte>>.EndNode];
      Assoc(x + Flat(b) + e, Flat(r), p);
      Assoc(x + Flat(b), e, Flat(r) + p);
      Assoc(x, Flat(b), e + (Flat(r) + p));
  }

  function Headed(s: Hedge, p: seq<Call>): seq<Call> {
    match s
    case Nil => p
    case PropH(k, v, r) => [Prop(k, v)] + (Flat(r) + p)
    case NopH(r) => [Nop] + (Flat(r) + p)
    case NodeH(n, b, r) => [BeginNode(n)] + (Flat(b) + ([EndNode] + (Flat(r) + p)))
  }

  /** Equal first tokens, equal rests. */
  lemma Same<T>(x: T, a: seq<T>, y: T, b: seq<T>)
    requires [x] + a == [y] + b
    ensures x == y && a == b
  {
    assert ([x] + a)[1..] == a && ([y] + b)[1..] == b;
    assert ([x] + a)[0] == x && ([y] + b)[0] == y;
  }

  lemma SameKind(s: Hedge, p: seq<Call>, t: Hedge, q: seq<Call>)
    requires Stops(p) && Stops(q) && Headed(s, p) == Headed(t, q)
    ensures s.Nil? == t.Nil? && s.PropH? == t.PropH? && s.NopH? == t.NopH? && s.NodeH? == t.NodeH?
  {
    hide Flat;
    assert Headed(s, p)[0] == Headed(t, q)[0];
  }

  /** A token sequence spells at most one tree. */
  lemma FlatInjective(s: Hedge, t: Hedge)
    requires Flat(s) == Flat(t)
    ensures s == t
  {
    FlatPrefix(s, [End], t, [End]);
  }
}
