/** The structure block as a language: one token per FDT tag, a parser from
    bytes to tokens, and the fact that parsing is a homomorphism, which turns
    every splice on token boundaries into the same splice on tokens. */
module Tokens {
  import opened Bytes

  const FDT_BEGIN_NODE: u32 := 1
  const FDT_END_NODE: u32 := 2
  const FDT_PROP: u32 := 3
  const FDT_NOP: u32 := 4
  const FDT_END: u32 := 9

  /** `L` keys a property: an offset into the strings block in a blob,
      the name itself once the offset is resolved. */
  datatype Token<+L> =
    | BeginNode(name: seq<byte>)
    | EndNode
    | Prop(key: L, value: seq<byte>)
    | Nop
    | End
  {
    function Tag(): u32 {
      match this
      case BeginNode(_) => FDT_BEGIN_NODE
      case EndNode => FDT_END_NODE
      case Prop(_, _) => FDT_PROP
      case Nop => FDT_NOP
      case End => FDT_END
    }

    /** Bytes that the token occupies, padding included. */
    function Size(): (n: nat)
      ensures n >= 4
    {
      match this
      case BeginNode(name) => 4 + Align4(|name| + 1)
      case Prop(_, v) => 12 + Align4(|v|)
      case _ => 4
    }
  }

  type RawToken = Token<u32>

  /** A token with its property name spelled out: a call of the writer, a tag
      and its arguments to a reader. */
  type Call = Token<seq<byte>>

  function NopTokens<L>(n: nat): (ts: seq<Token<L>>)
    ensures |ts| == n && forall i :: 0 <= i < n ==> ts[i] == Nop
  {
    seq(n, _ => Nop)
  }

  datatype Head = NoToken | Tok(tok: RawToken)

  /** The token at the head of a byte string; padding bytes are not looked at. */
  function HeadToken(s: seq<byte>): (h: Head)
    ensures h.Tok? ==> h.tok.Size() <= |s|
  {
    if |s| < 4 then NoToken else
    var tag := Ld32(s, 0);
    if tag == FDT_BEGIN_NODE then
      var nul := FindNul(s, 4);
      if nul == |s| || 4 + Align4(nul - 4 + 1) > |s| then NoToken else Tok(BeginNode(s[4..nul]))
    else if tag == FDT_PROP then
      if |s| < 12 || 12 + Align4(Ld32(s, 4)) > |s| then NoToken
      else Tok(Prop(Ld32(s, 8), s[12..12 + Ld32(s, 4)]))
    else if tag == FDT_END_NODE then Tok(EndNode)
    else if tag == FDT_NOP then Tok(Nop)
    else if tag == FDT_END then Tok(End)
    else NoToken
  }

  /** All the tokens of a byte string, if it is a whole number of tokens. */
  function Parse(s: seq<byte>): Option<seq<RawToken>>
    decreases |s|
  {
    if s == [] then Some([]) else
    match HeadToken(s)
    case NoToken => None
    case Tok(t) =>
      match Parse(s[t.Size()..])
      case None => None
      case Some(rest) => Some([t] + rest)
  }

  /** Total size of the first `k` tokens: the structure offset of token `k`. */
  function Offset<L>(ts: seq<Token<L>>, k: nat): (n: nat)
    requires k <= |ts|
  {
    if k == 0 then 0 else Offset(ts, k - 1) + ts[k - 1].Size()
  }

  /** Every token starts on a cell boundary. */
  lemma {:induction false} OffsetAligned<L>(ts: seq<Token<L>>, k: nat)
    requires k <= |ts|
    ensures Offset(ts, k) % 4 == 0
  {
    if k > 0 {
      OffsetAligned(ts, k - 1);
      match ts[k - 1]
      case BeginNode(name) => AlignShift(Offset(ts, k - 1), 4 + |name| + 1); AlignShift(4, |name| + 1);
      case Prop(_, v) => AlignShift(Offset(ts, k - 1), 12 + |v|); AlignShift(12, |v|);
      case _ =>
    }
  }

  lemma HeadTag(s: seq<byte>, t: RawToken)
    requires HeadToken(s) == Tok(t)
    ensures t.Size() <= |s| && Ld32(s, 0) == t.Tag()
  {
    hide Align4;
    hide FindNul;
  }

  lemma HeadName(s: seq<byte>, name: seq<byte>)
    requires HeadToken(s) == Tok(BeginNode(name))
    ensures 4 + Align4(|name| + 1) <= |s| && s[4..4 + |name|] == name && s[4 + |name|] == 0 && 0 !in name
  {
    hide Align4, Ld32;
  }

  /** A token does not depend on what follows it. */
  lemma HeadPrefix(s: seq<byte>, rest: seq<byte>)
    requires HeadToken(s).Tok?
    ensures HeadToken(s + rest) == HeadToken(s)
  {
    var u := s + rest;
    assert u[0..4] == s[0..4];
    Ld32Same(u, 0, s, 0);
    var tag := Ld32(s, 0);
    if tag == FDT_BEGIN_NODE {
      var nul := FindNul(s, 4);
      assert u[4..nul] == s[4..nul];
      FindNulUnique(u, 4, nul);
    } else if tag == FDT_PROP {
      assert u[4..8] == s[4..8] && u[8..12] == s[8..12];
      Ld32Same(u, 4, s, 4);
      Ld32Same(u, 8, s, 8);
      var n := Ld32(s, 4);
      assert u[12..12 + n] == s[12..12 + n];
    }
  }

  /** Nor on anything beyond its own size. */
  lemma HeadTrim(s: seq<byte>)
    requires HeadToken(s).Tok?
    ensures HeadToken(s[..HeadToken(s).tok.Size()]) == HeadToken(s)
  {
    var n := HeadToken(s).tok.Size();
    var u := s[..n];
    assert u[0..4] == s[0..4];
    Ld32Same(u, 0, s, 0);
    var tag := Ld32(s, 0);
    if tag == FDT_BEGIN_NODE {
      var nul := FindNul(s, 4);
      assert u[4..nul] == s[4..nul];
      FindNulUnique(u, 4, nul);
    } else if tag == FDT_PROP {
      assert u[4..8] == s[4..8] && u[8..12] == s[8..12];
      Ld32Same(u, 4, s, 4);
      Ld32Same(u, 8, s, 8);
      var m := Ld32(s, 4);
      assert u[12..12 + m] == s[12..12 + m];
    }
  }

  /** One step of the parser. */
  lemma ParseStep(s: seq<byte>, ts: seq<RawToken>) returns (n: nat)
    requires Parse(s) == Some(ts) && ts != []
    ensures n == ts[0].Size() <= |s|
    ensures HeadToken(s) == Tok(ts[0])
    ensures Parse(s[n..]) == Some(ts[1..])
  {
    hide HeadToken;
    n := ts[0].Size();
  }

  /** A block of one token. */
  lemma ParseOne(s: seq<byte>, t: RawToken)
    requires HeadToken(s) == Tok(t) && t.Size() == |s|
    ensures Parse(s) == Some([t])
  {
    hide HeadToken;
    assert s[|s|..] == [];
    assert [t] + [] == [t];
  }

  lemma ParseCons(s: seq<byte>, t: RawToken, us: seq<RawToken>)
    requires HeadToken(s) == Tok(t) && Parse(s[t.Size()..]) == Some(us)
    ensures Parse(s) == Some([t] + us)
  {
    hide HeadToken;
  }

  lemma ParseEmpty(s: seq<byte>, ts: seq<RawToken>)
    requires Parse(s) == Some(ts)
    ensures s == [] <==> ts == []
  {
    hide HeadToken;
  }

  /** Parsing turns concatenation of blocks into concatenation of tokens. */
  lemma {:induction false} ParseConcat(a: seq<byte>, ts: seq<RawToken>, b: seq<byte>, us: seq<RawToken>)
    requires Parse(a) == Some(ts) && Parse(b) == Some(us)
    ensures Parse(a + b) == Some(ts + us)
    decreases |a|
  {
    hide HeadToken;
    ParseEmpty(a, ts);
    if a == [] {
      assert a + b == b && ts + us == us;
    } else {
      var n := ParseStep(a, ts);
      HeadPrefix(a, b);
      ParseConcat(a[n..], ts[1..], b, us);
      assert (a + b)[n..] == a[n..] + b;
      assert [ts[0]] + (ts[1..] + us) == ts + us;
      ParseCons(a + b, ts[0], ts[1..] + us);
    }
  }

  lemma {:induction false} OffsetMono<L>(ts: seq<Token<L>>, i: nat, j: nat)
    requires i <= j <= |ts|
    ensures Offset(ts, i) + 4 * (j - i) <= Offset(ts, j)
    decreases j - i
  {
    if i < j {
      OffsetMono(ts, i, j - 1);
    }
  }

  lemma {:induction false} OffsetPrefix<L>(ts: seq<Token<L>>, us: seq<Token<L>>, k: nat)
    requires k <= |ts| && k <= |us| && ts[..k] == us[..k]
    ensures Offset(ts, k) == Offset(us, k)
  {
    if k > 0 {
      assert ts[..k - 1] == ts[..k][..k - 1] == us[..k][..k - 1] == us[..k - 1];
      assert ts[k - 1] == ts[..k][k - 1] == us[..k][k - 1] == us[k - 1];
      OffsetPrefix(ts, us, k - 1);
    }
  }

  /** Offsets within a tail, shifted. */
  lemma {:induction false} OffsetDrop<L>(ts: seq<Token<L>>, i: nat, k: nat)
    requires i + k <= |ts|
    ensures Offset(ts, i + k) == Offset(ts, i) + Offset(ts[i..], k)
  {
    if k > 0 {
      OffsetDrop(ts, i, k - 1);
      assert ts[i..][k - 1] == ts[i + k - 1];
    }
  }

  /** Cutting a block at a token boundary cuts its tokens there. */
  lemma {:induction false} ParseSplit(s: seq<byte>, ts: seq<RawToken>, k: nat)
    requires Parse(s) == Some(ts) && k <= |ts|
    ensures Offset(ts, k) <= |s|
    ensures Parse(s[..Offset(ts, k)]) == Some(ts[..k])
    ensures Parse(s[Offset(ts, k)..]) == Some(ts[k..])
    decreases k
  {
    hide HeadToken;
    if k == 0 {
      assert s[..0] == [] && s[0..] == s && ts[0..] == ts && ts[..0] == [];
    } else {
      hide Parse;
      var n := ParseStep(s, ts);
      ParseSplit(s[n..], ts[1..], k - 1);
      OffsetDrop(ts, 1, k - 1);
      var o, p := Offset(ts, k), Offset(ts[1..], k - 1);
      assert o == n + p by { assert Offset(ts, 1) == Offset(ts, 0) + ts[0].Size(); }
      SplitStep(s, ts, n, p, o, k);
    }
  }

  lemma SplitStep(s: seq<byte>, ts: seq<RawToken>, n: nat, p: nat, o: nat, k: nat)
    requires 0 < k <= |ts| && n == ts[0].Size() && n + p == o <= |s|
    requires HeadToken(s) == Tok(ts[0])
    requires Parse(s[n..][..p]) == Some(ts[1..][..k - 1]) && Parse(s[n..][p..]) == Some(ts[1..][k - 1..])
    ensures Parse(s[..o]) == Some(ts[..k])
    ensures Parse(s[o..]) == Some(ts[k..])
  {
    hide HeadToken;
    hide Parse;
    assert s[n..][p..] == s[o..] && ts[1..][k - 1..] == ts[k..];
    HeadTrim(s);
    ParseOne(s[..n], ts[0]);
    ParseConcat(s[..n], [ts[0]], s[n..][..p], ts[1..][..k - 1]);
    assert s[..n] + s[n..][..p] == s[..o] && [ts[0]] + ts[1..][..k - 1] == ts[..k];
  }

  /** The token that starts at the offset of token `k` is token `k`. */
  lemma ParseAt(s: seq<byte>, ts: seq<RawToken>, k: nat)
    requires Parse(s) == Some(ts) && k < |ts|
    ensures Offset(ts, k) + ts[k].Size() == Offset(ts, k + 1) <= |s|
    ensures HeadToken(s[Offset(ts, k)..]) == Tok(ts[k])
  {
    hide HeadToken;
    hide Parse;
    ParseSplit(s, ts, k);
    ParseSplit(s, ts, k + 1);
    var n := ParseStep(s[Offset(ts, k)..], ts[k..]);
  }

  /** The block ends where its last token ends. */
  lemma ParseEnd(s: seq<byte>, ts: seq<RawToken>)
    requires Parse(s) == Some(ts)
    ensures Offset(ts, |ts|) == |s|
  {
    hide HeadToken;
    hide Parse;
    ParseSplit(s, ts, |ts|);
    assert ts[|ts|..] == [];
    ParseEmpty(s[Offset(ts, |ts|)..], []);
  }

  /** Replacing the tokens from `i` up to `j` by the tokens of another block. */
  lemma ParseSplice(s: seq<byte>, ts: seq<RawToken>, i: nat, j: nat, mid: seq<byte>, us: seq<RawToken>)
    requires Parse(s) == Some(ts) && i <= j <= |ts| && Parse(mid) == Some(us)
    ensures Offset(ts, i) <= Offset(ts, j) <= |s|
    ensures Parse(s[..Offset(ts, i)] + mid + s[Offset(ts, j)..]) == Some(ts[..i] + us + ts[j..])
  {
    hide HeadToken;
    hide Parse;
    OffsetMono(ts, i, j);
    ParseSplit(s, ts, i);
    ParseSplit(s, ts, j);
    ParseConcat(s[..Offset(ts, i)], ts[..i], mid, us);
    ParseConcat(s[..Offset(ts, i)] + mid, ts[..i] + us, s[Offset(ts, j)..], ts[j..]);
  }
}
