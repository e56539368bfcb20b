/** Instruction decoding: a hash cache in front of a linear scan that moves what
    it finds to the front, against a scan of the table as it was sorted. */
module DecodeCache {
  import opened Bytes

  const OPCODE_CACHE_SIZE := 8191

  type word = bv64

  function And(a: word, b: word): word {
    a & b
  }

  /** The cache line of a word. */
  function Index(w: word): (i: nat)
    ensures i < OPCODE_CACHE_SIZE
  {
    w as int % OPCODE_CACHE_SIZE
  }

  /** A handler is a number here; 0 is illegal_instruction. */
  type Handler = nat
  const ILLEGAL: Handler := 0

  datatype Desc = Desc(pattern: word, mask: word, rv32: Option<Handler>, rv64: Option<Handler>)
  {
    function Code(xlen: int): Option<Handler> {
      if xlen == 64 then rv64 else rv32
    }

    predicate Accepts(w: word, xlen: int) {
      And(w, mask) == pattern && Code(xlen).Some?
    }
  }

  /** A handler for the register width, and the fixed bits of the word. */
  lemma AcceptsBits(d: Desc, w: word, xlen: int)
    ensures d.Accepts(w, xlen) <==>
            SameBits(w, d.pattern, d.mask) && (if xlen == 64 then d.rv64 else d.rv32) != None
    ensures d.Code(64) == d.rv64 && d.Code(32) == d.rv32
  {
    hide SameBits;
    SameBitsIs(w, d.pattern, d.mask);
  }

  /** They agree where the mask is set, and the pattern is zero elsewhere. */
  predicate SameBits(w: word, pattern: word, mask: word) {
    w & mask == pattern & mask && pattern & !mask == 0
  }

  lemma SameBitsIs(w: word, p: word, m: word)
    ensures w & m == p ==> SameBits(w, p, m)
    ensures SameBits(w, p, m) ==> w & m == p
  {
  }

  const CATCH_ALL := Desc(0, 0, Some(ILLEGAL), Some(ILLEGAL))

  lemma CatchAllAccepts(w: word, xlen: int)
    ensures CATCH_ALL.Accepts(w, xlen)
  {
  }

  // ---- tables

  /** Every entry but the last has a mask; the last is the catch-all. */
  predicate Closed(s: seq<Desc>) {
    |s| > 0 && s[|s| - 1] == CATCH_ALL && forall i :: 0 <= i < |s| - 1 ==> s[i].mask != 0
  }

  /** Entries with equal match bits stand next to each other. */
  predicate Contiguous(s: seq<Desc>) {
    forall i, j, k :: 0 <= i < j < k < |s| && s[i].pattern == s[k].pattern ==> s[j].pattern == s[i].pattern
  }

  predicate Above(a: word, b: word) {
    a > b
  }

  lemma AboveOneWay(a: word, b: word)
    ensures Above(a, b) ==> !Above(b, a)
  {
  }

  /** The order of build_opcode_map. */
  predicate Sorted(s: seq<Desc>) {
    forall i, j :: 0 <= i < j < |s| ==>
        Above(s[i].pattern, s[j].pattern) || (s[i].pattern == s[j].pattern && !Above(s[j].mask, s[i].mask))
  }

  /** Two masked entries that accept a common word have equal match bits. */
  ghost predicate Unambiguous(s: seq<Desc>, xlen: int) {
    forall x, y, w: word ::
      x in s && y in s && x.mask != 0 && y.mask != 0 && x.Accepts(w, xlen) && y.Accepts(w, xlen) ==>
      x.pattern == y.pattern
  }

  lemma SortedContiguous(s: seq<Desc>)
    requires Sorted(s)
    ensures Contiguous(s)
  {
    hide Above;
    forall i, j, k | 0 <= i < j < k < |s| && s[i].pattern == s[k].pattern
      ensures s[j].pattern == s[i].pattern
    {
      AboveOneWay(s[i].pattern, s[j].pattern);
    }
  }

  /** The first entry that accepts a word. */
  function Scan(s: seq<Desc>, w: word, xlen: int): (r: Option<Desc>)
    ensures r.Some? ==> r.value in s && r.value.Accepts(w, xlen)
    decreases |s|
  {
    if s == [] then None else if s[0].Accepts(w, xlen) then Some(s[0]) else Scan(s[1..], w, xlen)
  }

  /** The entries with given match bits, in order. */
  function Group(s: seq<Desc>, m: word): (g: seq<Desc>)
    ensures forall x :: x in g <==> x in s && x.pattern == m
    decreases |s|
  {
    if s == [] then [] else if s[0].pattern == m then [s[0]] + Group(s[1..], m) else Group(s[1..], m)
  }

  /** The same groups: any order of the groups, the same order in each. */
  ghost predicate Regrouped(s: seq<Desc>, t: seq<Desc>) {
    forall m :: Group(s, m) == Group(t, m)
  }

  lemma {:induction false} GroupConcat(a: seq<Desc>, b: seq<Desc>, m: word)
    ensures Group(a + b, m) == Group(a, m) + Group(b, m)
    decreases |a|
  {
    if a == [] {
      assert a + b == b;
    } else {
      assert (a + b)[1..] == a[1..] + b && (a + b)[0] == a[0];
      GroupConcat(a[1..], b, m);
    }
  }

  lemma GroupOne(x: Desc, m: word)
    ensures Group([x], m) == if x.pattern == m then [x] else []
  {
    assert [x][1..] == [];
  }

  lemma {:induction false} GroupEmpty(s: seq<Desc>, m: word)
    requires forall i :: 0 <= i < |s| ==> s[i].pattern != m
    ensures Group(s, m) == []
    decreases |s|
  {
    if s != [] {
      GroupEmpty(s[1..], m);
    }
  }

  /** Moving an entry that is alone in its group to the front keeps the groups. */
  lemma MoveFront(a: seq<Desc>, x: Desc, b: seq<Desc>)
    requires forall i :: 0 <= i < |a| ==> a[i].pattern != x.pattern
    requires forall i :: 0 <= i < |b| ==> b[i].pattern != x.pattern
    ensures Regrouped(a + [x] + b, [x] + a + b)
  {
    forall m: word
      ensures Group(a + [x] + b, m) == Group([x] + a + b, m)
    {
      GroupConcat(a + [x], b, m);
      GroupConcat(a, [x], m);
      GroupConcat([x] + a, b, m);
      GroupConcat([x], a, m);
      GroupOne(x, m);
      if m == x.pattern {
        GroupEmpty(a, m);
        GroupEmpty(b, m);
      }
    }
  }

  /** A word that some masked entry accepts is decided within one group. */
  lemma {:induction false} ScanInGroup(s: seq<Desc>, w: word, xlen: int, m: word)
    requires exists x :: x in s && x.Accepts(w, xlen)
    requires forall x :: x in s && x.Accepts(w, xlen) ==> x.pattern == m
    ensures Scan(s, w, xlen) == Scan(Group(s, m), w, xlen)
    decreases |s|
  {
    if s[0].Accepts(w, xlen) {
      assert Group(s, m)[0] == s[0];
    } else {
      var x :| x in s && x.Accepts(w, xlen);
      assert x in s[1..];
      ScanInGroup(s[1..], w, xlen, m);
      var g := Group(s[1..], m);
      if s[0].pattern == m {
        assert ([s[0]] + g)[1..] == g;
      }
    }
  }

  lemma {:induction false} ScanNone(s: seq<Desc>, w: word, xlen: int)
    requires forall x :: x in s ==> !x.Accepts(w, xlen)
    ensures Scan(s, w, xlen) == None
    decreases |s|
  {
    if s != [] {
      ScanNone(s[1..], w, xlen);
    }
  }

  lemma {:induction false} ScanConcat(a: seq<Desc>, b: seq<Desc>, w: word, xlen: int)
    ensures Scan(a + b, w, xlen) == if Scan(a, w, xlen).Some? then Scan(a, w, xlen) else Scan(b, w, xlen)
    decreases |a|
  {
    if a == [] {
      assert a + b == b;
    } else {
      assert (a + b)[1..] == a[1..] + b && (a + b)[0] == a[0];
      ScanConcat(a[1..], b, w, xlen);
    }
  }

  function Front(s: seq<Desc>): seq<Desc>
    requires |s| > 0
  {
    s[..|s| - 1]
  }

  /** An order of the table that lookups may have led to. */
  ghost predicate Arranged(t: seq<Desc>, s: seq<Desc>) {
    && Closed(t) && Closed(s) && |s| == |t|
    && Contiguous(Front(s)) && Regrouped(Front(t), Front(s))
  }

  lemma ArrangedStart(t: seq<Desc>)
    requires Closed(t) && Sorted(t)
    ensures Arranged(t, t)
  {
    hide Above;
    SortedContiguous(Front(t));
  }

  lemma RegroupedMembers(s: seq<Desc>, t: seq<Desc>, x: Desc)
    requires Regrouped(s, t)
    ensures x in s <==> x in t
  {
    assert x in Group(s, x.pattern) <==> x in Group(t, x.pattern);
  }

  /** A scan of masked entries depends on the groups alone. */
  lemma FrontSame(f: seq<Desc>, g: seq<Desc>, w: word, xlen: int)
    requires Regrouped(f, g)
    requires forall x, y :: x in f && y in f && x.Accepts(w, xlen) && y.Accepts(w, xlen) ==> x.pattern == y.pattern
    ensures Scan(f, w, xlen) == Scan(g, w, xlen)
  {
    hide Scan;
    forall x: Desc
      ensures x in f <==> x in g
    {
      RegroupedMembers(f, g, x);
    }
    if x :| x in f && x.Accepts(w, xlen) {
      ScanInGroup(f, w, xlen, x.pattern);
      ScanInGroup(g, w, xlen, x.pattern);
    } else {
      ScanNone(f, w, xlen);
      ScanNone(g, w, xlen);
    }
  }

  /** A scan finds the same entry in any such order. */
  lemma ScanSame(t: seq<Desc>, s: seq<Desc>, w: word, xlen: int)
    requires Arranged(t, s) && Unambiguous(t, xlen)
    ensures Scan(s, w, xlen) == Scan(t, w, xlen) && Scan(s, w, xlen).Some?
  {
    hide And, Contiguous, Group;
    var f, g, c := Front(t), Front(s), [CATCH_ALL];
    assert t == f + c && s == g + c;
    CatchAllAccepts(w, xlen);
    assert Scan(c, w, xlen) == Some(CATCH_ALL);
    hide Scan, Closed;
    ScanConcat(f, c, w, xlen);
    ScanConcat(g, c, w, xlen);
    MaskedFront(t);
    FrontSame(f, g, w, xlen);
  }

  lemma MaskedFront(t: seq<Desc>)
    requires Closed(t)
    ensures forall x :: x in Front(t) ==> x in t && x.mask != 0
  {
  }

  /** The entry at `k`, with neighbours of other groups, is alone in its group. */
  lemma AloneInGroup(s: seq<Desc>, k: nat)
    requires Closed(s) && Contiguous(Front(s)) && 0 < k < |s| - 1
    requires s[k].pattern != s[k - 1].pattern && s[k].pattern != s[k + 1].pattern
    ensures forall i :: 0 <= i < |s| - 1 && i != k ==> s[i].pattern != s[k].pattern
  {
    var f := Front(s);
    forall i | 0 <= i < |s| - 1 && i != k
      ensures s[i].pattern != s[k].pattern
    {
      if i < k - 1 {
        assert f[i] == s[i] && f[k - 1] == s[k - 1] && f[k] == s[k];
      } else if i > k + 1 {
        assert f[k] == s[k] && f[k + 1] == s[k + 1] && f[i] == s[i];
      }
    }
  }

  function Moved(s: seq<Desc>, k: nat): (r: seq<Desc>)
    requires k < |s|
    ensures |r| == |s|
  {
    [s[k]] + s[..k] + s[k + 1..]
  }

  lemma MovedArranged(t: seq<Desc>, s: seq<Desc>, k: nat)
    requires Arranged(t, s) && 0 < k < |s| - 1
    requires s[k].pattern != s[k - 1].pattern && s[k].pattern != s[k + 1].pattern
    ensures Arranged(t, Moved(s, k))
  {
    hide And, Above, Group;
    var f, r := Front(s), Moved(s, k);
    var a, x, b := f[..k], f[k], f[k + 1..];
    AloneInGroup(s, k);
    assert f == a + [x] + b && Front(r) == [x] + a + b;
    MoveFront(a, x, b);
    MovedContiguous(a, x, b);
    forall m: word
      ensures Group(Front(t), m) == Group(Front(r), m)
    {
      assert Group(Front(t), m) == Group(f, m);
    }
  }

  lemma MovedContiguous(a: seq<Desc>, x: Desc, b: seq<Desc>)
    requires Contiguous(a + [x] + b)
    requires forall i :: 0 <= i < |a| ==> a[i].pattern != x.pattern
    requires forall i :: 0 <= i < |b| ==> b[i].pattern != x.pattern
    ensures Contiguous([x] + a + b)
  {
    var f, g, n := a + [x] + b, [x] + a + b, |a|;
    forall i, j, k | 0 <= i < j < k < |g| && g[i].pattern == g[k].pattern
      ensures g[j].pattern == g[i].pattern
    {
      assert i > 0;
      assert forall q :: 0 < q < |g| ==> g[q] == f[if q <= n then q - 1 else q];
      var i', j', k' := if i <= n then i - 1 else i, if j <= n then j - 1 else j, if k <= n then k - 1 else k;
      assert f[i'] == g[i] && f[j'] == g[j] && f[k'] == g[k];
    }
  }

  // ---- the decoder

  /** The handler that a scan of a closed table gives a word. */
  function ScanCode(t: seq<Desc>, w: word, xlen: int): (h: Option<Handler>) {
    var r := Scan(t, w, xlen);
    if r.Some? then r.value.Code(xlen) else None
  }

  /** A cache line holds what a scan of the sorted table finds for its word; a line
      for zero may instead still hold illegal_instruction. */
  predicate LineOk(t: seq<Desc>, c: Desc, xlen: int) {
    c.Code(xlen).Some? ==>
      c.Code(xlen) == ScanCode(t, c.pattern, xlen) || (c.pattern == 0 && c.Code(xlen) == Some(ILLEGAL))
  }

  class Decoder {
    const xlen: int
    const instructions: array<Desc>
    const opcodeCache: array<Desc>
    ghost const sorted: seq<Desc>

    ghost predicate Valid()
      reads this, instructions, opcodeCache
    {
      && instructions != opcodeCache && opcodeCache.Length == OPCODE_CACHE_SIZE
      && Unambiguous(sorted, xlen) && Arranged(sorted, instructions[..])
      && forall i :: 0 <= i < OPCODE_CACHE_SIZE ==> LineOk(sorted, opcodeCache[i], xlen)
    }

    /** The cache line for a word does not answer. */
    predicate Missed(w: word)
      reads this, opcodeCache
      requires opcodeCache.Length == OPCODE_CACHE_SIZE
    {
      var c := opcodeCache[Index(w)];
      w != c.pattern || c.Code(xlen).None?
    }

    /** build_opcode_map, given the sorted table. */
    constructor (table: seq<Desc>, xlen: int)
      requires Closed(table) && Sorted(table) && Unambiguous(table, xlen)
      ensures Valid() && sorted == table && this.xlen == xlen && fresh(instructions) && fresh(opcodeCache)
      ensures forall i :: 0 <= i < OPCODE_CACHE_SIZE ==> opcodeCache[i] == CATCH_ALL
    {
      this.xlen, sorted := xlen, table;
      instructions := new Desc[|table|](i requires 0 <= i < |table| => table[i]);
      opcodeCache := new Desc[OPCODE_CACHE_SIZE](_ => CATCH_ALL);
      new;
      assert instructions[..] == table;
      ArrangedStart(table);
    }

    /** The loop that shifts entries up, and the store in front. */
    method MoveToFront(k: nat)
      requires k < instructions.Length
      modifies instructions
      ensures instructions[..] == Moved(old(instructions[..]), k)
    {
      ghost var s := instructions[..];
      var desc := instructions[k];
      var p := k;
      while p > 0
        invariant 0 <= p <= k
        invariant forall i :: 0 <= i < p ==> instructions[i] == s[i]
        invariant forall i :: p < i <= k ==> instructions[i] == s[i - 1]
        invariant forall i :: k < i < |s| ==> instructions[i] == s[i]
      {
        p := p - 1;
        instructions[p + 1] := instructions[p];
      }
      instructions[0] := desc;
      assert instructions[..] == Moved(s, k);
    }

    /** The linear search: index of the first entry that accepts. */
    method Search(w: word) returns (k: nat)
      requires Scan(instructions[..], w, xlen).Some?
      ensures k < instructions.Length && Scan(instructions[..], w, xlen) == Some(instructions[k])
    {
      k := 0;
      ghost var s := instructions[..];
      assert s[0..] == s;
      while !instructions[k].Accepts(w, xlen)
        invariant k < |s| && Scan(s, w, xlen) == Scan(s[k..], w, xlen)
        decreases |s| - k
      {
        assert s[k..][1..] == s[k + 1..];
        k := k + 1;
      }
    }

    /** decode_insn: whatever was looked up before, a word other than zero gets
        the handler that a scan of the sorted table gives it, and zero gets that
        one or illegal_instruction. */
    method DecodeInsn(w: word) returns (h: Handler)
      requires Valid()
      modifies instructions, opcodeCache
      ensures Valid()
      ensures w != 0 || old(Missed(w)) ==> ScanCode(sorted, w, xlen) == Some(h)
      ensures ScanCode(sorted, w, xlen) == Some(h) || (w == 0 && h == ILLEGAL)
      ensures !old(Missed(w)) ==> Some(h) == old(opcodeCache[Index(w)]).Code(xlen)
    {
      hide Arranged, Unambiguous, Scan, Index, And;
      var idx := Index(w);
      var desc := opcodeCache[idx];
      if w != desc.pattern || desc.Code(xlen).None? {
        ScanSame(sorted, instructions[..], w, xlen);
        ArrangedClosed(sorted, instructions[..]);
        var k := Search(w);
        desc := instructions[k];
        if desc.mask != 0 && k > 0 {
          LastIsCatchAll(instructions[..], k);
          if desc.pattern != instructions[k - 1].pattern && desc.pattern != instructions[k + 1].pattern {
            MovedArranged(sorted, instructions[..], k);
            MoveToFront(k);
          }
        }
        opcodeCache[idx] := desc.(pattern := w);
      }
      return desc.Code(xlen).value;
    }
  }

  lemma ArrangedClosed(t: seq<Desc>, s: seq<Desc>)
    requires Arranged(t, s)
    ensures Closed(s)
  {
  }

  /** Any number of lookups. */
  method Lookups(d: Decoder, ws: seq<word>)
    requires d.Valid()
    modifies d.instructions, d.opcodeCache
    ensures d.Valid()
  {
    for i := 0 to |ws|
      invariant d.Valid()
    {
      var h := d.DecodeInsn(ws[i]);
    }
  }

  /** Zero first of all, on a fresh map: always illegal_instruction. */
  method ZeroFirst(table: seq<Desc>, xlen: int) returns (h: Handler)
    requires Closed(table) && Sorted(table) && Unambiguous(table, xlen)
    ensures h == ILLEGAL
  {
    var d := new Decoder(table, xlen);
    h := d.DecodeInsn(0);
  }

  /** Zero after any history: when the scan gives it illegal_instruction, so does
      the decoder.  With ZeroFirst, whose history is empty, the decoder agrees with
      the scan on zero after every history if and only if this is what the scan
      gives. */
  method ZeroAfter(table: seq<Desc>, xlen: int, ws: seq<word>) returns (h: Handler)
    requires Closed(table) && Sorted(table) && Unambiguous(table, xlen)
    ensures ScanCode(table, 0, xlen) == Some(h) || h == ILLEGAL
    ensures ScanCode(table, 0, xlen) == Some(ILLEGAL) ==> ScanCode(table, 0, xlen) == Some(h)
  {
    var d := new Decoder(table, xlen);
    Lookups(d, ws);
    h := d.DecodeInsn(0);
  }

  /** The table that holds c.addi4spn, which accepts zero, and the catch-all. */
  const ADDI4SPN := Desc(0, 0xe003, Some(1), Some(1))

  lemma ZeroTable()
    ensures Closed([ADDI4SPN, CATCH_ALL]) && Sorted([ADDI4SPN, CATCH_ALL]) && Unambiguous([ADDI4SPN, CATCH_ALL], 64)
    ensures ScanCode([ADDI4SPN, CATCH_ALL], 0, 64) == Some(1)
  {
    hide And;
    NothingIn(0xe003);
    var t := [ADDI4SPN, CATCH_ALL];
    assert t[0] == ADDI4SPN && t[0].Accepts(0, 64);
  }

  /** With that table the decoder does not agree with the scan on zero. */
  method ZeroWord() returns (h: Handler)
    ensures h == ILLEGAL && ScanCode([ADDI4SPN, CATCH_ALL], 0, 64) == Some(1)
  {
    ZeroTable();
    h := ZeroFirst([ADDI4SPN, CATCH_ALL], 64);
  }

  lemma NothingIn(m: word)
    ensures And(0, m) == 0
  {
  }

  lemma LastIsCatchAll(s: seq<Desc>, k: nat)
    requires Closed(s) && k < |s| && s[k].mask != 0
    ensures k < |s| - 1
  {
  }
}
