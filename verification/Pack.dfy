/** fdt_pack and fdt_open_into: repacking keeps the meaning of a blob although
    the blocks move over one another and old and new header may be the same. */
module Pack {
  import opened Bytes
  import opened Tokens
  import opened Blob
  import opened StringTable
  import opened Reader
  import opened Splice
  import opened ReadWrite
  import opened Probe
  import SeqWriter

  // ---- the reserve map

  /** The size field of a reserve entry is zero. */
  predicate LastEntry(b: seq<byte>, off: nat)
    requires off + 16 <= |b|
  {
    Ld32(b, off + 8) == 0 && Ld32(b, off + 12) == 0
  }

  /** Number of entries before the terminator, if there is one. */
  function RsvCount(b: seq<byte>, off: nat): (r: Option<nat>)
    ensures r.Some? ==> off + 16 * (r.value + 1) <= |b|
    decreases |b| - off
  {
    if off + 16 > |b| then None
    else if LastEntry(b, off) then Some(0)
    else
      match RsvCount(b, off + 16)
      case None => None
      case Some(n) => Some(n + 1)
  }

  /** fdt_num_mem_rsv */
  method NumMemRsv(f: Fdt) returns (r: int)
    requires f.Mapped() && 16 <= f.hdr.totalsize
    ensures match RsvCount(f.Buf(), f.hdr.offRsvmap)
            case Some(n) => r == n
            case None => r == -ERR_TRUNCATED
  {
    hide Ld32;
    var i := 0;
    var off: nat := f.hdr.offRsvmap;
    while off + 16 <= f.hdr.totalsize
      invariant off == f.hdr.offRsvmap + 16 * i
      invariant match RsvCount(f.Buf(), off)
                case Some(n) => RsvCount(f.Buf(), f.hdr.offRsvmap) == Some(i + n)
                case None => RsvCount(f.Buf(), f.hdr.offRsvmap) == None
      decreases f.hdr.totalsize - off
    {
      var hi := Load32(f, off + 8);
      var lo := Load32(f, off + 12);
      if hi == 0 && lo == 0 {
        return i;
      }
      i := i + 1;
      off := off + 16;
    }
    return -ERR_TRUNCATED;
  }

  /** The entries depend on their own bytes only. */
  lemma {:induction false} RsvCountSame(b: seq<byte>, off: nat, c: seq<byte>, to: nat, n: nat)
    requires RsvCount(b, off) == Some(n) && to + 16 * (n + 1) <= |c|
    requires c[to..to + 16 * (n + 1)] == b[off..off + 16 * (n + 1)]
    ensures RsvCount(c, to) == Some(n)
    decreases n
  {
    hide Ld32;
    var m := 16 * (n + 1);
    SliceSlice(b, off, off + m, 8, 12);
    SliceSlice(c, to, to + m, 8, 12);
    SliceSlice(b, off, off + m, 12, 16);
    SliceSlice(c, to, to + m, 12, 16);
    Ld32Same(b, off + 8, c, to + 8);
    Ld32Same(b, off + 12, c, to + 12);
    if n > 0 {
      SliceSlice(b, off, off + m, 16, m);
      SliceSlice(c, to, to + m, 16, m);
      RsvCountSame(b, off + 16, c, to + 16, n - 1);
    }
  }

  /** The reserve map with its terminator. */
  function RsvMap(b: seq<byte>, off: nat, n: nat): (s: seq<byte>)
    requires off + 16 * (n + 1) <= |b|
  {
    b[off..off + 16 * (n + 1)]
  }

  // ---- blobs whose blocks may lie in any order

  /** A blob that readers accept: each block is inside, in whatever order. */
  predicate Readable(h: Header, b: seq<byte>, structSize: nat, cs: seq<Call>) {
    && h.magic == FDT_MAGIC && 16 <= h.version <= 17 && (h.version == 17 ==> h.sizeStruct == structSize)
    && h.totalsize < TWO31 && |b| == h.totalsize
    && h.offStruct + structSize <= h.totalsize && h.offStrings + h.sizeStrings <= h.totalsize
    && Denotes(Block(b, h.offStruct, structSize), cs, StringsBlock(h, b), 0)
  }

  /** The `n` bytes at `s` of one memory are those at `d` of another. */
  predicate Copied(m: seq<byte>, s: nat, m': seq<byte>, d: nat, n: nat) {
    s + n <= |m| && d + n <= |m'| && m'[d..d + n] == m[s..s + n]
  }

  lemma CopiedByMove(m: seq<byte>, s: nat, d: nat, n: nat)
    requires s + n <= |m| && d + n <= |m|
    ensures Copied(m, s, Patch(m, d, m[s..s + n]), d, n)
  {
    PatchHere(m, d, m[s..s + n]);
  }

  /** What a later move does not overwrite stays copied. */
  lemma CopiedPast(m: seq<byte>, s: nat, m1: seq<byte>, d: nat, n: nat, at: nat, t: seq<byte>)
    requires Copied(m, s, m1, d, n) && at + |t| <= |m1| && (d + n <= at || at + |t| <= d)
    ensures Copied(m, s, Patch(m1, at, t), d, n)
  {
    Away(m1, at, t, d, d + n);
  }

  lemma CopiedTrans(m: seq<byte>, s: nat, m1: seq<byte>, d: nat, m2: seq<byte>, e: nat, n: nat)
    requires Copied(m, s, m1, d, n) && Copied(m1, d, m2, e, n)
    ensures Copied(m, s, m2, e, n)
  {
  }

  /** Part of a copy. */
  lemma CopiedPart(m: seq<byte>, s: nat, m': seq<byte>, d: nat, n: nat, x: nat, k: nat)
    requires Copied(m, s, m', d, n) && x + k <= n
    ensures Copied(m, s + x, m', d + x, k)
  {
    SliceSlice(m, s, s + n, x, x + k);
    SliceSlice(m', d, d + n, x, x + k);
  }

  /** A copy between two blobs, seen from inside them. */
  lemma CopiedInside(m: seq<byte>, base: nat, total: nat, off: nat, m': seq<byte>, base': nat, total': nat, off': nat,
                     n: nat)
    requires base + total <= |m| && off + n <= total && base' + total' <= |m'| && off' + n <= total'
    requires Copied(m, base + off, m', base' + off', n)
    ensures m'[base'..base' + total'][off'..off' + n] == m[base..base + total][off..off + n]
  {
    SliceSlice(m, base, base + total, off, off + n);
    SliceSlice(m', base', base' + total', off', off' + n);
  }

  /** A series of moves. */
  datatype Move = Move(src: nat, dst: nat, len: nat)

  /** No move overwrites what a later one reads or an earlier one wrote. */
  predicate Safe(ms: seq<Move>, size: nat) {
    && (forall i :: 0 <= i < |ms| ==> ms[i].src + ms[i].len <= size && ms[i].dst + ms[i].len <= size)
    && (forall i, j :: 0 <= i < j < |ms| ==>
          && (ms[i].dst + ms[i].len <= ms[j].src || ms[j].src + ms[j].len <= ms[i].dst)
          && (ms[i].dst + ms[i].len <= ms[j].dst || ms[j].dst + ms[j].len <= ms[i].dst))
  }

  /** After `k` moves: those blocks have arrived, the others are where they were. */
  predicate Stage(m: seq<byte>, m': seq<byte>, ms: seq<Move>, k: nat) {
    |m'| == |m| && forall i :: 0 <= i < |ms| ==>
        Copied(m, ms[i].src, m', if i < k then ms[i].dst else ms[i].src, ms[i].len)
  }

  lemma StageStart(m: seq<byte>, ms: seq<Move>)
    requires Safe(ms, |m|)
    ensures Stage(m, m, ms, 0)
  {
  }

  lemma StageStep(m: seq<byte>, m': seq<byte>, ms: seq<Move>, k: nat)
    requires Safe(ms, |m|) && Stage(m, m', ms, k) && k < |ms|
    ensures Stage(m, Patch(m', ms[k].dst, m'[ms[k].src..ms[k].src + ms[k].len]), ms, k + 1)
  {
    hide Copied, Patch;
    var c := ms[k];
    var t := m'[c.src..c.src + c.len];
    var m'' := Patch(m', c.dst, t);
    forall i | 0 <= i < |ms|
      ensures Copied(m, ms[i].src, m'', if i < k + 1 then ms[i].dst else ms[i].src, ms[i].len)
    {
      assert Copied(m, ms[i].src, m', if i < k then ms[i].dst else ms[i].src, ms[i].len);
      if i == k {
        CopiedByMove(m', c.src, c.dst, c.len);
        CopiedTrans(m, c.src, m', c.src, m'', c.dst, c.len);
      } else {
        CopiedPast(m, ms[i].src, m', if i < k then ms[i].dst else ms[i].src, ms[i].len, c.dst, t);
      }
    }
  }

  /** A patch elsewhere. */
  lemma Away(b: seq<byte>, at: nat, s: seq<byte>, x: nat, y: nat)
    requires at + |s| <= |b| && x <= y <= |b| && (y <= at || at + |s| <= x)
    ensures Patch(b, at, s)[x..y] == b[x..y]
  {
  }

  /** The reserve map, structure and strings of a blob, one after the other. */
  predicate Packed(m: seq<byte>, base: nat, h: Header, m': seq<byte>, base': nat, h': Header, rsv: nat,
                   structSize: nat) {
    && h'.offRsvmap == HEADER_SIZE && h'.offStruct == HEADER_SIZE + rsv && h'.offStrings == h'.offStruct + structSize
    && h'.sizeStruct == structSize && h'.sizeStrings == h.sizeStrings
    && Copied(m, base + h.offRsvmap, m', base' + h'.offRsvmap, rsv)
    && Copied(m, base + h.offStruct, m', base' + h'.offStruct, structSize)
    && Copied(m, base + h.offStrings, m', base' + h'.offStrings, h.sizeStrings)
  }

  /** The moves of fdt_packblocks_. */
  function PackMoves(base: nat, h: Header, base': nat, rsv: nat, structSize: nat): seq<Move> {
    [Move(base + h.offRsvmap, base' + HEADER_SIZE, rsv),
     Move(base + h.offStruct, base' + HEADER_SIZE + rsv, structSize),
     Move(base + h.offStrings, base' + HEADER_SIZE + rsv + structSize, h.sizeStrings)]
  }

  predicate InBounds(ms: seq<Move>, size: nat) {
    forall i :: 0 <= i < |ms| ==> ms[i].src + ms[i].len <= size && ms[i].dst + ms[i].len <= size
  }

  /** The memory after the moves from the `k`-th on. */
  function AfterMoves(m: seq<byte>, ms: seq<Move>, k: nat): (r: seq<byte>)
    requires InBounds(ms, |m|) && k <= |ms|
    ensures |r| == |m|
    decreases |ms| - k
  {
    if k == |ms| then m
    else AfterMoves(Patch(m, ms[k].dst, m[ms[k].src..ms[k].src + ms[k].len]), ms, k + 1)
  }

  lemma {:induction false} SafeMoves(m: seq<byte>, m': seq<byte>, ms: seq<Move>, k: nat)
    requires Safe(ms, |m|) && Stage(m, m', ms, k) && k <= |ms|
    ensures InBounds(ms, |m'|) && Stage(m, AfterMoves(m', ms, k), ms, |ms|)
    decreases |ms| - k
  {
    hide Stage, Patch;
    assert |m'| == |m| by { StageSize(m, m', ms, k); }
    if k < |ms| {
      StageStep(m, m', ms, k);
      SafeMoves(m, Patch(m', ms[k].dst, m'[ms[k].src..ms[k].src + ms[k].len]), ms, k + 1);
    }
  }

  lemma StageSize(m: seq<byte>, m': seq<byte>, ms: seq<Move>, k: nat)
    requires Stage(m, m', ms, k)
    ensures |m'| == |m|
  {
  }

  lemma MovesEnd(m: seq<byte>, ms: seq<Move>)
    requires InBounds(ms, |m|)
    ensures AfterMoves(m, ms, |ms|) == m
  {
  }

  /** One memmove of the series. */
  method MoveNext(mem: array<byte>, dst: nat, src: nat, n: nat, ghost ms: seq<Move>, ghost k: nat)
    requires InBounds(ms, mem.Length) && k < |ms| && ms[k] == Move(src, dst, n)
    modifies mem
    ensures AfterMoves(old(mem[..]), ms, k) == AfterMoves(mem[..], ms, k + 1)
  {
    hide Patch;
    SeqWriter.MoveMem(mem, dst, src, n);
  }

  /** fdt_packblocks_; `old` and `new` may be one and the same blob. */
  method PackBlocks(old_: Fdt, new_: Fdt, rsv: nat, structSize: nat)
    requires old_.mem == new_.mem
    requires HEADER_SIZE + rsv + structSize < TWO31
    requires InBounds(PackMoves(old_.base, old_.hdr, new_.base, rsv, structSize), old_.mem.Length)
    modifies new_`hdr, new_.mem
    ensures new_.mem[..] ==
              AfterMoves(old(old_.mem[..]), PackMoves(old_.base, old(old_.hdr), new_.base, rsv, structSize), 0)
    ensures Safe(PackMoves(old_.base, old(old_.hdr), new_.base, rsv, structSize), old_.mem.Length) ==>
              Packed(old(old_.mem[..]), old_.base, old(old_.hdr), new_.mem[..], new_.base, new_.hdr, rsv, structSize)
    ensures new_.hdr ==
              old(new_.hdr).(offRsvmap := HEADER_SIZE, offStruct := HEADER_SIZE + rsv,
                             sizeStruct := structSize, offStrings := HEADER_SIZE + rsv + structSize,
                             sizeStrings := old(old_.hdr.sizeStrings))
  {
    hide Patch, Copied, Stage, Safe, Packed, InBounds, AfterMoves;
    var mem := old_.mem;
    ghost var m, h := mem[..], old_.hdr;
    ghost var ms := PackMoves(old_.base, h, new_.base, rsv, structSize);
    var rsvOff := HEADER_SIZE;
    var structOff := rsvOff + rsv;
    var stringsOff := structOff + structSize;
    MoveNext(mem, new_.base + rsvOff, old_.base + old_.hdr.offRsvmap, rsv, ms, 0);
    new_.hdr := new_.hdr.(offRsvmap := rsvOff);
    MoveNext(mem, new_.base + structOff, old_.base + old_.hdr.offStruct, structSize, ms, 1);
    new_.hdr := new_.hdr.(offStruct := structOff);
    new_.hdr := new_.hdr.(sizeStruct := structSize);
    MoveNext(mem, new_.base + stringsOff, old_.base + old_.hdr.offStrings, old_.hdr.sizeStrings, ms, 2);
    new_.hdr := new_.hdr.(offStrings := stringsOff);
    new_.hdr := new_.hdr.(sizeStrings := old_.hdr.sizeStrings);
    MovesEnd(mem[..], ms);
    if Safe(ms, mem.Length) {
      StageStart(m, ms);
      SafeMoves(m, m, ms, 0);
      StageEnd(m, mem[..], ms, old_.base, h, new_.base, new_.hdr, rsv, structSize);
    }
  }

  lemma StageEnd(m: seq<byte>, m': seq<byte>, ms: seq<Move>, base: nat, h: Header, base': nat, h': Header, rsv: nat,
                 structSize: nat)
    requires ms == PackMoves(base, h, base', rsv, structSize) && Stage(m, m', ms, 3)
    requires h'.offRsvmap == HEADER_SIZE && h'.offStruct == HEADER_SIZE + rsv
    requires h'.offStrings == h'.offStruct + structSize
    requires h'.sizeStruct == structSize && h'.sizeStrings == h.sizeStrings
    ensures Packed(m, base, h, m', base', h', rsv, structSize)
  {
    hide Copied;
    assert Copied(m, ms[0].src, m', ms[0].dst, ms[0].len);
    assert Copied(m, ms[1].src, m', ms[1].dst, ms[1].len);
    assert Copied(m, ms[2].src, m', ms[2].dst, ms[2].len);
  }

  // ---- fdt_pack

  /** Everything a reader can get at is what it was. */
  predicate SameContent(h: Header, b: seq<byte>, structSize: nat, h': Header, b': seq<byte>, n: nat) {
    && |b| == h.totalsize && |b'| == h'.totalsize
    && h.offStruct + structSize <= |b| && h.offStrings + h.sizeStrings <= |b|
    && h'.offStruct + h'.sizeStruct <= |b'| && h'.offStrings + h'.sizeStrings <= |b'|
    && StructBlock(h', b') == Block(b, h.offStruct, structSize)
    && StringsBlock(h', b') == StringsBlock(h, b)
    && h.offRsvmap + 16 * (n + 1) <= |b| && h'.offRsvmap + 16 * (n + 1) <= |b'|
    && RsvMap(b', h'.offRsvmap, n) == RsvMap(b, h.offRsvmap, n)
    && RsvCount(b, h.offRsvmap) == Some(n) && RsvCount(b', h'.offRsvmap) == Some(n)
  }

  /** Packed blocks of a memory are the blocks of the packed blob. */
  lemma PackedContent(m: seq<byte>, base: nat, h: Header, m': seq<byte>, base': nat, h1: Header, h': Header,
                      structSize: nat, n: nat)
    requires base + h.totalsize <= |m| && base' + h'.totalsize <= |m'|
    requires Packed(m, base, h, m', base', h1, 16 * (n + 1), structSize)
    requires h' == h1.(magic := h'.magic, totalsize := h'.totalsize, version := h'.version,
                       lastCompVersion := h'.lastCompVersion)
    requires h1.offStrings + h1.sizeStrings <= h'.totalsize
    requires h.offStruct + structSize <= h.totalsize && h.offStrings + h.sizeStrings <= h.totalsize
    requires RsvCount(m[base..base + h.totalsize], h.offRsvmap) == Some(n)
    ensures SameContent(h, m[base..base + h.totalsize], structSize, h', m'[base'..base' + h'.totalsize], n)
  {
    hide RsvCount, Copied;
    var b, b' := m[base..base + h.totalsize], m'[base'..base' + h'.totalsize];
    CopiedInside(m, base, h.totalsize, h.offRsvmap, m', base', h'.totalsize, h'.offRsvmap, 16 * (n + 1));
    CopiedInside(m, base, h.totalsize, h.offStruct, m', base', h'.totalsize, h'.offStruct, structSize);
    CopiedInside(m, base, h.totalsize, h.offStrings, m', base', h'.totalsize, h'.offStrings, h'.sizeStrings);
    RsvCountSame(b, h.offRsvmap, b', h'.offRsvmap, n);
  }

  /** Same content, same meaning. */
  lemma SameMeaning(h: Header, b: seq<byte>, structSize: nat, h': Header, b': seq<byte>, n: nat, cs: seq<Call>)
    requires Readable(h, b, structSize, cs) && SameContent(h, b, structSize, h', b', n)
    requires h'.magic == FDT_MAGIC && h'.version == 17 && h'.totalsize < TWO31
    requires h'.offRsvmap <= h'.offStruct && h'.offStruct + h'.sizeStruct <= h'.offStrings
    ensures Complete(h', b', cs)
  {
    hide Denotes, RsvCount;
  }

  /** Moving the blocks of a blob in place, none is overwritten before it was moved
      exactly when the reserve map, moved up to the header, ends before the structure
      block (if there is one). The probe of fdt_pack asks for room for one entry only. */
  predicate RsvInPlace(h: Header, n: nat) {
    HEADER_SIZE + 16 * (n + 1) <= h.offStruct
  }

  lemma PackSafeExact(h: Header, base: nat, n: nat, size: nat)
    requires RwProbe(h) == 0 && base + h.totalsize <= size
    requires h.offRsvmap + 16 * (n + 1) <= h.totalsize && h.offStruct + h.sizeStruct <= h.totalsize
    requires h.offStrings + h.sizeStrings <= h.totalsize
    requires HEADER_SIZE + 16 * (n + 1) + h.sizeStruct + h.sizeStrings <= h.totalsize
    ensures RsvInPlace(h, n) ==> Safe(PackMoves(base, h, base, 16 * (n + 1), h.sizeStruct), size)
    ensures h.sizeStruct > 0 && Safe(PackMoves(base, h, base, 16 * (n + 1), h.sizeStruct), size) ==> RsvInPlace(h, n)
  {
    InOrder(h, 16, h.sizeStruct);
    hide RoProbe, Misordered;
    var ms := PackMoves(base, h, base, 16 * (n + 1), h.sizeStruct);
    var a, b := ms[0], ms[1];
    assert h.sizeStruct > 0 && Safe(ms, size) ==> a.dst + a.len <= b.src || b.src + b.len <= a.dst;
  }

  /** fdt_pack: in place, and afterwards the blob ends where its strings end. */
  method PackInPlace(f: Fdt, ghost cs: seq<Call>, ghost n: nat) returns (err: int)
    requires f.Mapped() && Complete(f.hdr, f.Buf(), cs)
    requires RsvCount(f.Buf(), f.hdr.offRsvmap) == Some(n)
    requires HEADER_SIZE + 16 * (n + 1) + f.hdr.sizeStruct + f.hdr.sizeStrings <= f.hdr.totalsize
    modifies f`hdr, f.mem
    ensures f.Mapped() && err == RwProbe(old(f.hdr))
    ensures err != 0 ==> f.hdr == old(f.hdr) && f.Buf() == old(f.Buf())
    ensures err == 0 ==> f.hdr.totalsize == f.hdr.offStrings + f.hdr.sizeStrings
    ensures err == 0 ==> f.hdr.totalsize == HEADER_SIZE + 16 * (n + 1) + old(f.hdr.sizeStruct) + old(f.hdr.sizeStrings)
    ensures err == 0 ==> f.hdr.totalsize <= old(f.hdr.totalsize)
    ensures err == 0 ==> RwProbe(f.hdr) == 0
    ensures err == 0 && RsvInPlace(old(f.hdr), n) ==> Complete(f.hdr, f.Buf(), cs)
    ensures err == 0 && RsvInPlace(old(f.hdr), n) ==>
              SameContent(old(f.hdr), old(f.Buf()), old(f.hdr.sizeStruct), f.hdr, f.Buf(), n)
    ensures err == 0 ==>
              var ms := PackMoves(f.base, old(f.hdr), f.base, 16 * (n + 1), old(f.hdr.sizeStruct));
              InBounds(ms, f.mem.Length) && f.mem[..] == AfterMoves(old(f.mem[..]), ms, 0)
  {
    hide Denotes, Packed, RsvCount, Safe, AfterMoves, SameContent, RwProbe;
    err := RwProbe(f.hdr);
    if err != 0 {
      return;
    }
    ghost var h, b, m := f.hdr, f.Buf(), f.mem[..];
    RsvRoom(h, b, n);
    var num := NumMemRsv(f);
    var structSize := f.hdr.sizeStruct;
    PackSafeExact(h, f.base, n, f.mem.Length);
    PackBlocks(f, f, 16 * (num + 1), structSize);
    ghost var h1, m' := f.hdr, f.mem[..];
    f.hdr := f.hdr.(totalsize := f.hdr.offStrings + f.hdr.sizeStrings);
    assert f.mem[..] == m';
    StillAccepted(h, f.hdr);
    if RsvInPlace(h, n) {
      PackedContent(m, f.base, h, m', f.base, h1, f.hdr, structSize, n);
      SameMeaning(h, b, structSize, f.hdr, f.Buf(), n, cs);
    }
  }

  /** A smaller blob with its blocks side by side is accepted like the old one. */
  lemma StillAccepted(h: Header, h': Header)
    requires RwProbe(h) == 0 && h'.totalsize <= h.totalsize && h'.offRsvmap == HEADER_SIZE
    requires h'.offRsvmap + 16 <= h'.offStruct && h'.offStruct + h'.sizeStruct == h'.offStrings
    requires h'.offStrings + h'.sizeStrings == h'.totalsize && h'.sizeStruct == h.sizeStruct
    requires h'.magic == h.magic && h'.version == h.version && h'.lastCompVersion == h.lastCompVersion
    ensures RwProbe(h') == 0
  {
  }

  lemma PackedOffsets(m: seq<byte>, base: nat, h: Header, m': seq<byte>, base': nat, h': Header, rsv: nat,
                      structSize: nat)
    requires Packed(m, base, h, m', base', h', rsv, structSize)
    ensures h'.offRsvmap == HEADER_SIZE && h'.offStruct == HEADER_SIZE + rsv
    ensures h'.offStrings == h'.offStruct + structSize
    ensures h'.sizeStruct == structSize && h'.sizeStrings == h.sizeStrings
  {
  }

  // ---- a reserve map that runs into the structure block

  /** One reserve entry, and then a root whose property of zeros makes the terminator. */
  function Crowded(): (b: seq<byte>)
    ensures |b| == 136
  {
    seq(48, _ => 0) + (Be32(0) + Be32(0) + Be32(0) + Be32(1)) +
    (Be32(FDT_BEGIN_NODE) + Be32(0) + Be32(FDT_PROP) + Be32(16) + Be32(0) + seq(16, _ => 0) + Be32(FDT_END_NODE) +
     Be32(FDT_END)) + [0x61, 0] + seq(26, _ => 0)
  }

  const CROWDED := Header(FDT_MAGIC, 136, 64, 108, 48, 17, 16, 2, 44)

  lemma CrowdedWords()
    ensures var b := Crowded();
            && Ld32(b, 56) == 0 && Ld32(b, 60) == 1 && Ld32(b, 64) == FDT_BEGIN_NODE && Ld32(b, 72) == FDT_PROP
            && Ld32(b, 76) == 16 && Ld32(b, 88) == 0 && Ld32(b, 92) == 0
  {
  }

  /** fdt_pack accepts this blob, and yet the structure block that it makes begins with a property: the
      reserve map was moved over the start of the block first. */
  lemma PackDamages()
    ensures var ms := PackMoves(0, CROWDED, 0, 48, 44);
            && RwProbe(CROWDED) == 0 && RsvCount(Crowded(), 48) == Some(2) && !RsvInPlace(CROWDED, 2)
            && Ld32(Crowded(), CROWDED.offStruct) == FDT_BEGIN_NODE
            && InBounds(ms, 136) && Ld32(AfterMoves(Crowded(), ms, 0), 88) == FDT_PROP
  {
    hide Ld32, Patch, Crowded;
    CrowdedWords();
    var b, ms := Crowded(), PackMoves(0, CROWDED, 0, 48, 44);
    assert RsvCount(b, 80) == Some(0) && RsvCount(b, 64) == Some(1);
    var m1 := Patch(b, 40, b[48..96]);
    var m2 := Patch(m1, 88, m1[64..108]);
    var m3 := Patch(m2, 132, m2[108..110]);
    assert AfterMoves(b, ms, 0) == AfterMoves(m1, ms, 1) == AfterMoves(m2, ms, 2) == AfterMoves(m3, ms, 3) == m3;
    Away(m2, 132, m2[108..110], 88, 92);
    PatchHere(m1, 88, m1[64..108]);
    PatchHere(b, 40, b[48..96]);
    SliceSlice(m2, 88, 132, 0, 4);
    SliceSlice(m1, 64, 108, 0, 4);
    SliceSlice(m1, 40, 88, 24, 28);
    SliceSlice(b, 48, 96, 24, 28);
    assert m3[88..92] == b[72..76];
    Ld32Same(m3, 88, b, 72);
  }

  // ---- fdt_open_into

  /** Version 16 headers have no structure size, and fdt_next_tag ignores it. */
  lemma {:induction false} NameScanSize(h: Header, h': Header, b: seq<byte>, offset: nat)
    requires h.Sane() && |b| == h.totalsize && offset < TWO31 && h.version < 17 && h' == h.(sizeStruct := h'.sizeStruct)
    ensures NameScan(h, b, offset) == NameScan(h', b, offset)
    decreases TWO31 - offset
  {
    OffsetPtrExact(h, offset, 1);
    OffsetPtrExact(h', offset, 1);
    hide OffsetPtrOk;
    if OffsetPtrOk(h, offset, 1) {
      NameScanSize(h, h', b, offset + 1);
    }
  }

  lemma NextTagSize(h: Header, h': Header, b: seq<byte>, start: int)
    requires h.Sane() && |b| == h.totalsize && -TWO31 <= start < TWO31 && h.version < 17
    requires h' == h.(sizeStruct := h'.sizeStruct)
    ensures NextTag(h, b, start) == NextTag(h', b, start)
  {
    hide NameScan, Align4, Ld32;
    assert forall o: int, n: u32 :: OffsetPtrOk(h, o, n) == OffsetPtrOk(h', o, n);
    if OffsetPtrOk(h, start, 4) {
      OffsetPtrExact(h, start, 4);
      if start + 4 < TWO31 {
        NameScanSize(h, h', b, start + 4);
      }
    }
  }

  /** The size of the structure block: the header field, or a walk to END. */
  method StructSize(f: Fdt, ghost structSize: nat, ghost cs: seq<Call>) returns (size: int)
    requires f.Mapped() && Readable(f.hdr, f.Buf(), structSize, cs)
    requires |cs| > 0 && cs[|cs| - 1] == End && forall i :: 0 <= i < |cs| - 1 ==> !cs[i].End?
    ensures size == structSize
  {
    hide Parse, NextTag, Means;
    if f.hdr.version >= 17 {
      return f.hdr.sizeStruct;
    }
    ghost var h := f.hdr.(sizeStruct := structSize);
    ghost var ts := Parse(StructBlock(h, f.Buf())).value;
    ParseEnd(StructBlock(h, f.Buf()), ts);
    size := 0;
    ghost var k := 0;
    WalkStep(f.hdr, f.Buf(), structSize, cs, 0);
    var tag, next := FdtNextTag(f, size);
    size := next;
    while tag != FDT_END
      invariant 0 <= k < |cs| && tag == cs[k].Tag() && size == Offset(ts, k + 1)
      decreases |cs| - k
    {
      k := k + 1;
      WalkStep(f.hdr, f.Buf(), structSize, cs, k);
      tag, next := FdtNextTag(f, size);
      size := next;
    }
  }

  lemma WalkStep(h: Header, b: seq<byte>, structSize: nat, cs: seq<Call>, k: nat)
    requires Readable(h, b, structSize, cs) && h.version < 17 && k < |cs|
    ensures var ts := Parse(Block(b, h.offStruct, structSize)).value;
            && |ts| == |cs| && 0 <= Offset(ts, k) < TWO31 && h.Sane()
            && NextTag(h, b, Offset(ts, k)) == (cs[k].Tag(), Offset(ts, k + 1))
  {
    hide Parse, NextTag;
    var h' := h.(sizeStruct := structSize);
    var ts := Parse(Block(b, h.offStruct, structSize)).value;
    NextTagAt(h', b, ts, k);
    NextTagSize(h, h', b, Offset(ts, k));
    assert Means(ts[k], cs[k], StringsBlock(h, b), 0);
  }

  /** Copying a whole blob. */
  lemma MovedContent(m: seq<byte>, base: nat, h: Header, m': seq<byte>, base': nat, h': Header, structSize: nat, n: nat)
    requires base + h.totalsize <= |m| && base' + h'.totalsize <= |m'| && h.totalsize <= h'.totalsize
    requires Copied(m, base, m', base', h.totalsize)
    requires h' == h.(version := 17, sizeStruct := h'.sizeStruct, totalsize := h'.totalsize)
    requires h'.sizeStruct == structSize
    requires h.offStruct + structSize <= h.totalsize && h.offStrings + h.sizeStrings <= h.totalsize
    requires RsvCount(m[base..base + h.totalsize], h.offRsvmap) == Some(n)
    ensures SameContent(h, m[base..base + h.totalsize], structSize, h', m'[base'..base' + h'.totalsize], n)
  {
    hide RsvCount, Copied;
    var b, b' := m[base..base + h.totalsize], m'[base'..base' + h'.totalsize];
    CopiedPart(m, base, m', base', h.totalsize, h.offRsvmap, 16 * (n + 1));
    CopiedPart(m, base, m', base', h.totalsize, h.offStruct, structSize);
    CopiedPart(m, base, m', base', h.totalsize, h.offStrings, h.sizeStrings);
    CopiedInside(m, base, h.totalsize, h.offRsvmap, m', base', h'.totalsize, h'.offRsvmap, 16 * (n + 1));
    CopiedInside(m, base, h.totalsize, h.offStruct, m', base', h'.totalsize, h'.offStruct, structSize);
    CopiedInside(m, base, h.totalsize, h.offStrings, m', base', h'.totalsize, h'.offStrings, h'.sizeStrings);
    RsvCountSame(b, h.offRsvmap, b', h'.offRsvmap, n);
  }

  /** The reordered blob fits the buffer, at its start when that is clear of the old
      blob, else right behind the old blob. */
  predicate ReorderRoom(h: Header, base: nat, buf: nat, bufsize: nat, rsv: nat, size: nat) {
    var newsize, end := HEADER_SIZE + rsv + size + h.sizeStrings, base + h.totalsize;
    newsize <= bufsize && (buf + newsize <= base || end <= buf || end + newsize <= buf + bufsize)
  }

  /** The size of the reordered blob is kept in an `int`, yet the blocks of the old blob may overlap
      and so add up to more than it can hold; this says that the room test is right nevertheless. */
  predicate SizeHolds(h: Header, bufsize: nat, rsv: nat, size: nat) {
    var newsize := HEADER_SIZE + rsv + size + h.sizeStrings;
    newsize < TWO31 || bufsize < Int32(newsize)
  }

  /** The room test means what it should exactly then. */
  lemma SizeTestExact(h: Header, bufsize: nat, rsv: nat, size: nat)
    requires bufsize < TWO31
    ensures var newsize := HEADER_SIZE + rsv + size + h.sizeStrings;
            (bufsize < Int32(newsize) <==> bufsize < newsize) <==> SizeHolds(h, bufsize, rsv, size)
  {
  }

  /** Structure and strings of a gigabyte each, in a blob of little more than that, one over the other: every
      buffer is taken for large enough. */
  lemma SizeTestWraps(h: Header, bufsize: nat)
    requires h.sizeStrings == 0x4000_0000 && bufsize < TWO31
    ensures !(bufsize < Int32(HEADER_SIZE + 16 + 0x4000_0000 + h.sizeStrings))
    ensures !SizeHolds(h, bufsize, 16, 0x4000_0000)
  {
  }

  /** When fdt_open_into has the room it needs. */
  predicate OpenRoom(h: Header, base: nat, buf: nat, bufsize: nat, rsv: nat, size: nat) {
    if Misordered(h, rsv, size) then ReorderRoom(h, base, buf, bufsize, rsv, size) else h.totalsize <= bufsize
  }

  /** fdt_open_into: a version 17 blob in `buf`, which may overlap the old blob,
      with the blocks in the order that the editing functions need. */
  method OpenInto(f: Fdt, buf: nat, bufsize: nat, ghost structSize: nat, ghost cs: seq<Call>, ghost n: nat)
    returns (err: int, g: Fdt?)
    requires f.Mapped() && Readable(f.hdr, f.Buf(), structSize, cs) && RsvCount(f.Buf(), f.hdr.offRsvmap) == Some(n)
    requires |cs| > 0 && cs[|cs| - 1] == End && forall i :: 0 <= i < |cs| - 1 ==> !cs[i].End?
    requires buf + bufsize <= f.mem.Length && bufsize < TWO31
    requires Misordered(f.hdr, 16 * (n + 1), structSize) ==> SizeHolds(f.hdr, bufsize, 16 * (n + 1), structSize)
    modifies f.mem
    ensures RoProbe(f.hdr) < 0 ==> err == RoProbe(f.hdr)
    ensures RoProbe(f.hdr) >= 0 ==>
              err == if OpenRoom(f.hdr, f.base, buf, bufsize, 16 * (n + 1), structSize) then 0 else -ERR_NOSPACE
    ensures err != 0 ==> f.mem[..] == old(f.mem[..])
    ensures err == 0 ==>
              g != null && fresh(g) && g.mem == f.mem && g.base == buf && g.Mapped() && g.hdr.totalsize == bufsize
    ensures err == 0 ==> Complete(g.hdr, g.Buf(), cs)
    ensures err == 0 ==> SameContent(f.hdr, old(f.Buf()), structSize, g.hdr, g.Buf(), n)
    ensures err == 0 ==> !Misordered(g.hdr, 16 * (n + 1), structSize)
    ensures err == 0 ==> (RwProbe(g.hdr) == 0 <==> bufsize < TWO31 - 1)
  {
    hide Denotes, Packed, RsvCount, RoProbe, RwProbe, Misordered;
    g := null;
    err := RoProbe(f.hdr);
    if err < 0 {
      return;
    }
    RsvRoom(f.hdr, f.Buf(), n);
    var num := NumMemRsv(f);
    var rsv := 16 * (num + 1);
    var size := StructSize(f, structSize, cs);
    if !Misordered(f.hdr, rsv, size) {
      err, g := MoveWhole(f, buf, bufsize, size, cs, n);
    } else {
      err, g := Reorder(f, buf, bufsize, rsv, size, cs, n);
    }
    if err == 0 {
      OpenedAccepted(f.hdr, g.hdr, g.Buf(), rsv, size, cs);
    }
  }

  /** The new blob can be edited, unless it is one byte short of 2 GiB. */
  lemma OpenedAccepted(h: Header, h': Header, b': seq<byte>, rsv: nat, size: nat, cs: seq<Call>)
    requires RoProbe(h) >= 0 && h.magic == FDT_MAGIC && Complete(h', b', cs) && !Misordered(h', rsv, size)
    requires h'.lastCompVersion == h.lastCompVersion || h'.lastCompVersion == 16
    requires 16 <= rsv && h'.offRsvmap + rsv <= h'.totalsize
    ensures RwProbe(h') == 0 <==> h'.totalsize < TWO31 - 1
  {
    hide Denotes;
    RoAccepts(h);
    RwComplete(h', b', cs);
  }

  /** The blocks are in order: fdt_move, and three header fields. */
  method MoveWhole(f: Fdt, buf: nat, bufsize: nat, size: nat, ghost cs: seq<Call>, ghost n: nat)
    returns (err: int, g: Fdt?)
    requires f.Mapped() && Readable(f.hdr, f.Buf(), size, cs) && RsvCount(f.Buf(), f.hdr.offRsvmap) == Some(n)
    requires !Misordered(f.hdr, 16 * (n + 1), size)
    requires buf + bufsize <= f.mem.Length && bufsize < TWO31
    modifies f.mem
    ensures err == if f.hdr.totalsize > bufsize then -ERR_NOSPACE else 0
    ensures err != 0 ==> f.mem[..] == old(f.mem[..])
    ensures err == 0 ==>
              g != null && fresh(g) && g.mem == f.mem && g.base == buf && g.Mapped() && g.hdr.totalsize == bufsize
    ensures err == 0 ==> Complete(g.hdr, g.Buf(), cs)
    ensures err == 0 ==> SameContent(f.hdr, old(f.Buf()), size, g.hdr, g.Buf(), n)
    ensures err == 0 ==> !Misordered(g.hdr, 16 * (n + 1), size) && g.hdr.lastCompVersion == f.hdr.lastCompVersion
  {
    hide Denotes, RsvCount, SameContent, Copied, Patch, Misordered;
    RsvRoom(f.hdr, f.Buf(), n);
    InOrder(f.hdr, 16 * (n + 1), size);
    if f.hdr.totalsize > bufsize {
      return -ERR_NOSPACE, null;
    }
    ghost var h, base, b, m := f.hdr, f.base, f.Buf(), f.mem[..];
    g := new Fdt(f.mem, buf, f.hdr.(version := 17, sizeStruct := size, totalsize := bufsize));
    assert f.mem[..] == m;
    SeqWriter.MoveMem(f.mem, buf, f.base, f.hdr.totalsize);
    CopiedByMove(m, base, buf, h.totalsize);
    MovedContent(m, base, h, f.mem[..], buf, g.hdr, size, n);
    SameMeaning(h, b, size, g.hdr, g.Buf(), n, cs);
    InOrder(g.hdr, 16 * (n + 1), size);
    err := 0;
  }

  lemma RsvRoom(h: Header, b: seq<byte>, n: nat)
    requires |b| == h.totalsize && RsvCount(b, h.offRsvmap) == Some(n)
    ensures h.offRsvmap + 16 * (n + 1) <= h.totalsize
  {
  }

  /** The reordering half of fdt_open_into: the new blob is built clear of the
      old one and then moved to the start of the buffer. */
  method Reorder(f: Fdt, buf: nat, bufsize: nat, rsv: nat, size: nat, ghost cs: seq<Call>, ghost n: nat)
    returns (err: int, g: Fdt?)
    requires f.Mapped() && Readable(f.hdr, f.Buf(), size, cs) && RsvCount(f.Buf(), f.hdr.offRsvmap) == Some(n)
    requires rsv == 16 * (n + 1) && SizeHolds(f.hdr, bufsize, rsv, size)
    requires buf + bufsize <= f.mem.Length && bufsize < TWO31
    modifies f.mem
    ensures err == if ReorderRoom(f.hdr, f.base, buf, bufsize, rsv, size) then 0 else -ERR_NOSPACE
    ensures err != 0 ==> f.mem[..] == old(f.mem[..])
    ensures err == 0 ==>
              g != null && fresh(g) && g.mem == f.mem && g.base == buf && g.Mapped() && g.hdr.totalsize == bufsize
    ensures err == 0 ==> Complete(g.hdr, g.Buf(), cs)
    ensures err == 0 ==> SameContent(f.hdr, old(f.Buf()), size, g.hdr, g.Buf(), n)
    ensures err == 0 ==> !Misordered(g.hdr, rsv, size) && g.hdr.lastCompVersion == 16
  {
    hide Denotes, Packed, RsvCount, SameContent, Copied, Patch;
    g := null;
    SizeTestExact(f.hdr, bufsize, rsv, size);
    var newsize := Int32(HEADER_SIZE + rsv + size + f.hdr.sizeStrings);
    if bufsize < newsize {
      return -ERR_NOSPACE, null;
    }
    var fdtend := f.base + f.hdr.totalsize;
    var tmp := buf;
    if tmp + newsize > f.base && tmp < fdtend {
      tmp := fdtend;
      if tmp + newsize > buf + bufsize {
        return -ERR_NOSPACE, null;
      }
    }
    RsvRoom(f.hdr, f.Buf(), n);
    g := BuildAt(f, tmp, buf, bufsize, rsv, size, newsize, cs, n);
    err := 0;
  }

  /** fdt_packblocks_ to `tmp`, the move to `buf`, and the header. */
  method BuildAt(f: Fdt, tmp: nat, buf: nat, bufsize: nat, rsv: nat, size: nat, newsize: nat, ghost cs: seq<Call>,
                 ghost n: nat)
    returns (g: Fdt)
    requires f.Mapped() && Readable(f.hdr, f.Buf(), size, cs) && RsvCount(f.Buf(), f.hdr.offRsvmap) == Some(n)
    requires rsv == 16 * (n + 1)
    requires f.hdr.offRsvmap + rsv <= f.hdr.totalsize
    requires buf + bufsize <= f.mem.Length && newsize <= bufsize < TWO31 && tmp + newsize <= buf + bufsize
    requires newsize == HEADER_SIZE + rsv + size + f.hdr.sizeStrings
    requires tmp + newsize <= f.base || f.base + f.hdr.totalsize <= tmp
    modifies f.mem
    ensures fresh(g) && g.mem == f.mem && g.base == buf && g.Mapped() && g.hdr.totalsize == bufsize
    ensures Complete(g.hdr, g.Buf(), cs)
    ensures SameContent(f.hdr, old(f.Buf()), size, g.hdr, g.Buf(), n)
    ensures !Misordered(g.hdr, rsv, size) && g.hdr.lastCompVersion == 16
  {
    hide Denotes, Packed, RsvCount, SameContent, Copied, Patch, Safe, InBounds, AfterMoves, Misordered;
    ghost var h, base, b, m := f.hdr, f.base, f.Buf(), f.mem[..];
    ApartSafe(h, base, tmp, rsv, size, f.mem.Length);
    var t := new Fdt(f.mem, tmp, f.hdr);
    assert f.mem[..] == m;
    PackBlocks(f, t, rsv, size);
    ghost var m1 := f.mem[..];
    PackedOffsets(m, base, h, m1, tmp, t.hdr, rsv, size);
    g := new Fdt(f.mem, buf, t.hdr.(magic := FDT_MAGIC, totalsize := bufsize, version := 17, lastCompVersion := 16));
    assert f.mem[..] == m1;
    SeqWriter.MoveMem(f.mem, buf, tmp, newsize);
    CopiedByMove(m1, tmp, buf, newsize);
    PackedMoved(m, base, h, m1, tmp, f.mem[..], buf, t.hdr, rsv, size);
    PackedContent(m, base, h, f.mem[..], buf, t.hdr, g.hdr, size, n);
    SameMeaning(h, b, size, g.hdr, g.Buf(), n, cs);
    InOrder(g.hdr, rsv, size);
  }

  /** Blocks that are moved clear of the old blob are safe. */
  lemma ApartSafe(h: Header, base: nat, tmp: nat, rsv: nat, size: nat, bound: nat)
    requires h.offRsvmap + rsv <= h.totalsize && h.offStruct + size <= h.totalsize
    requires h.offStrings + h.sizeStrings <= h.totalsize && base + h.totalsize <= bound
    requires tmp + HEADER_SIZE + rsv + size + h.sizeStrings <= bound
    requires tmp + HEADER_SIZE + rsv + size + h.sizeStrings <= base || base + h.totalsize <= tmp
    ensures Safe(PackMoves(base, h, tmp, rsv, size), bound) && InBounds(PackMoves(base, h, tmp, rsv, size), bound)
  {
  }

  lemma PackedMoved(m: seq<byte>, base: nat, h: Header, m1: seq<byte>, tmp: nat, m2: seq<byte>, buf: nat, h': Header,
                    rsv: nat, structSize: nat)
    requires Packed(m, base, h, m1, tmp, h', rsv, structSize)
    requires Copied(m1, tmp, m2, buf, h'.offStrings + h'.sizeStrings)
    ensures Packed(m, base, h, m2, buf, h', rsv, structSize)
  {
    hide Copied;
    var n := h'.offStrings + h'.sizeStrings;
    CopiedPart(m1, tmp, m2, buf, n, h'.offRsvmap, rsv);
    CopiedPart(m1, tmp, m2, buf, n, h'.offStruct, structSize);
    CopiedPart(m1, tmp, m2, buf, n, h'.offStrings, h'.sizeStrings);
    CopiedTrans(m, base + h.offRsvmap, m1, tmp + h'.offRsvmap, m2, buf + h'.offRsvmap, rsv);
    CopiedTrans(m, base + h.offStruct, m1, tmp + h'.offStruct, m2, buf + h'.offStruct, structSize);
    CopiedTrans(m, base + h.offStrings, m1, tmp + h'.offStrings, m2, buf + h'.offStrings, h.sizeStrings);
  }
}
