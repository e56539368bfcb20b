/** The software TLB: three tag arrays over one data array.  Whatever a tag hit
    answers is what the slow path would answer. */
module Tlb {
  import opened Bytes
  import opened Pmp
  import opened Walk

  const TLB_ENTRIES := 256
  const NO_TAG: reg := 0xffff_ffff_ffff_ffff
  const TLB_CHECK_TRIGGERS: reg := 0x8000_0000_0000_0000

  /** Offsets from a virtual address to the host pointer and to the physical address. */
  datatype Entry = Entry(host: int, target: int)

  /** An address as a number: page number and offset. */
  function Num(a: reg): int {
    Vpn(a) as int * 4096 + PageOff(a) as int
  }

  /** Accesses of the load, store and fetch functions: a power of two bytes, aligned. */
  predicate Fits(a: reg, len: nat) {
    len == 1 || (len == 2 && a & 1 == 0) || (len == 4 && a & 3 == 0) || (len == 8 && a & 7 == 0)
  }

  datatype Reply = Host(ptr: int, paddr: reg) | Mmio(paddr: reg) | Fault(why: Walked)

  /** addr_to_mem: host memory is allocated page by page. */
  function AddrToMem(pages: map<reg, int>, paddr: reg): Reply {
    if Vpn(paddr) in pages then Host(pages[Vpn(paddr)] + PageOff(paddr) as int, paddr) else Mmio(paddr)
  }

  /** What the slow path finds out. */
  ghost function Slow(m: Machine, pages: map<reg, int>, a: reg, len: nat, access: Access): Reply
    requires m.Valid()
  {
    match Translate(m, a, len, access)
    case Trap(w) => Fault(w)
    case Phys(p) => AddrToMem(pages, p)
  }

  /** The entry gives the answers of the slow path for all accesses in the page. */
  ghost predicate Serves(m: Machine, pages: map<reg, int>, e: Entry, vpn: reg, access: Access)
    requires m.Valid()
  {
    forall a, len :: Vpn(a) == vpn && Fits(a, len) ==>
      var r := Slow(m, pages, a, len, access);
      r.Host? && r.ptr == Num(a) + e.host && Num(r.paddr) == Num(a) + e.target
  }

  // ---- pages and offsets

  lemma Rejoin(b: reg, a: reg)
    requires PageOf(b) == b
    ensures Vpn(Or(b, PageOff(a))) == Vpn(b)
  {
  }

  lemma RejoinOff(b: reg, a: reg)
    requires PageOf(b) == b
    ensures PageOff(Or(b, PageOff(a))) == PageOff(a)
  {
  }

  lemma RejoinPage(b: reg, a: reg)
    requires PageOf(b) == b
    ensures PageOf(Or(b, PageOff(a))) == b
  {
  }

  lemma PageTwice(a: reg)
    ensures PageOf(PageOf(a)) == PageOf(a)
  {
  }

  lemma BaseAligned(m: Machine, a: reg, access: Access)
    requires m.Valid() && WalkPage(m, a, access).Page?
    ensures PageOf(WalkPage(m, a, access).base) == WalkPage(m, a, access).base
  {
    hide Search, DecodeVm, LowBits, PageOf, LeafPage, Or;
    var v := DecodeVm(m.rv64, m.prv, m.satp).value;
    if v.Bare? {
      PageTwice(LowBits(a, Xlen(m.rv64)));
    } else {
      var w := Search(m, v, a, access, m.prv);
      PageTwice(Or(LeafPage(v, w.level, w.pte, a), PageOff(a)));
    }
  }

  lemma FitsOff(a: reg, p: reg, len: nat)
    requires Fits(a, len) && PageOff(a) == PageOff(p)
    ensures Fits(p, len)
  {
    LowThree(a, p);
  }

  lemma LowThree(a: reg, p: reg)
    requires PageOff(a) == PageOff(p)
    ensures a & 1 == p & 1 && a & 3 == p & 3 && a & 7 == p & 7
  {
  }

  lemma Sector0(a: reg)
    ensures InPage(PageOf(a), Plus(a, 0))
  {
  }

  lemma Sector4(a: reg)
    requires a & 7 == 0
    ensures InPage(PageOf(a), Plus(a, 4))
  {
    hide Plus, InPage, PageOf;
    PlusFour(a);
    NextWord(a);
  }

  lemma PlusFour(a: reg)
    ensures Plus(a, 4) == a + 4
  {
    var four := 4;
    assert four % 0x1_0000_0000_0000_0000 == four && four as reg == 4;
  }

  lemma NextWord(a: reg)
    requires a & 7 == 0
    ensures InPage(PageOf(a), a + 4)
  {
  }

  lemma FitsInside(a: reg, len: nat)
    requires Fits(a, len)
    ensures Inside(PageOf(a), a, len)
  {
    hide InPage, Plus, PageOf;
    forall k: nat | 4 * k < len
      ensures InPage(PageOf(a), Plus(a, 4 * k))
    {
      if k == 0 {
        Sector0(a);
      } else {
        Sector4(a);
      }
    }
  }

  // ---- one entry for a page

  ghost predicate Uniformly(m: Machine, p: reg)
    requires m.Valid()
  {
    UniformFrom(m.pmp, 0, 0, PageOf(p))
  }

  /** A physical address is a page base and the offset of the virtual address. */
  lemma PhysParts(m: Machine, a: reg, len: nat, access: Access)
    requires m.Valid() && Translate(m, a, len, access).Phys?
    ensures var p := Translate(m, a, len, access).paddr;
            && WalkPage(m, a, access).Page? && PageOf(p) == WalkPage(m, a, access).base
            && Vpn(p) == Vpn(WalkPage(m, a, access).base) && PageOff(p) == PageOff(a)
            && Allowed(m.pmp, p, len, access, m.prv)
  {
    hide WalkPage, Or, PageOff, PageOf, Vpn, Allowed;
    BaseAligned(m, a, access);
    var b := WalkPage(m, a, access).base;
    Rejoin(b, a);
    RejoinOff(b, a);
    RejoinPage(b, a);
  }

  /** Another access of the same kind in the same page, when the page test holds. */
  lemma SamePage(m: Machine, v: reg, len: nat, a: reg, n: nat, access: Access)
    requires m.Valid() && Vpn(a) == Vpn(v) && Fits(v, len) && Fits(a, n)
    requires Translate(m, v, len, access).Phys? && Uniformly(m, Translate(m, v, len, access).paddr)
    ensures Translate(m, a, n, access).Phys?
    ensures Vpn(Translate(m, a, n, access).paddr) == Vpn(Translate(m, v, len, access).paddr)
    ensures PageOff(Translate(m, a, n, access).paddr) == PageOff(a)
  {
    hide WalkPage, Or, PageOff, PageOf, Vpn, Allowed, Fits, UniformFrom, Inside;
    var p := Translate(m, v, len, access).paddr;
    PageUniform(m, v, a, access);
    PhysParts(m, v, len, access);
    var b := WalkPage(m, a, access).base;
    var q := Or(b, PageOff(a));
    BaseAligned(m, a, access);
    Rejoin(b, a);
    RejoinOff(b, a);
    RejoinPage(b, a);
    FitsOff(v, p, len);
    FitsOff(a, q, n);
    FitsInside(p, len);
    FitsInside(q, n);
    HomogeneousSound(m.pmp, PageOf(p), p, len, q, n, access, m.prv);
  }

  /** A fresh entry serves its page. */
  lemma NewServes(m: Machine, pages: map<reg, int>, v: reg, len: nat, access: Access)
    requires m.Valid() && Fits(v, len) && Slow(m, pages, v, len, access).Host?
    requires Uniformly(m, Slow(m, pages, v, len, access).paddr)
    ensures var r := Slow(m, pages, v, len, access);
            Serves(m, pages, Entry(r.ptr - Num(v), Num(r.paddr) - Num(v)), Vpn(v), access)
  {
    hide Slow, Num, Vpn, Fits, Uniformly;
    var r := Slow(m, pages, v, len, access);
    forall a, n | Vpn(a) == Vpn(v) && Fits(a, n)
      ensures var s := Slow(m, pages, a, n, access);
              s.Host? && s.ptr == Num(a) + (r.ptr - Num(v)) && Num(s.paddr) == Num(a) + (Num(r.paddr) - Num(v))
    {
      ServesOne(m, pages, v, len, a, n, access);
    }
  }

  lemma ServesOne(m: Machine, pages: map<reg, int>, v: reg, len: nat, a: reg, n: nat, access: Access)
    requires m.Valid() && Fits(v, len) && Slow(m, pages, v, len, access).Host?
    requires Uniformly(m, Slow(m, pages, v, len, access).paddr) && Vpn(a) == Vpn(v) && Fits(a, n)
    ensures var r, s := Slow(m, pages, v, len, access), Slow(m, pages, a, n, access);
            s.Host? && s.ptr == Num(a) + (r.ptr - Num(v)) && Num(s.paddr) == Num(a) + (Num(r.paddr) - Num(v))
  {
    hide Translate, PageOff, Vpn, Fits, Uniformly;
    PhysOff(m, v, len, access);
    SamePage(m, v, len, a, n, access);
  }

  lemma PhysOff(m: Machine, a: reg, len: nat, access: Access)
    requires m.Valid() && Translate(m, a, len, access).Phys?
    ensures PageOff(Translate(m, a, len, access).paddr) == PageOff(a)
  {
    hide Translate, WalkPage, PageOff, PageOf, Vpn, Allowed;
    PhysParts(m, a, len, access);
  }

  /** The data shared with a tag of another kind is the same data. */
  lemma SharedEntry(m: Machine, pages: map<reg, int>, e: Entry, v: reg, len: nat, x: Access, y: Access)
    requires m.Valid() && Fits(v, len) && Slow(m, pages, v, len, x).Host? && Serves(m, pages, e, Vpn(v), y)
    ensures var r := Slow(m, pages, v, len, x);
            e == Entry(r.ptr - Num(v), Num(r.paddr) - Num(v))
  {
    hide Translate, PageOff, Vpn, Fits, Num;
    var s := Slow(m, pages, v, len, y);
    assert s.Host? && s.ptr == Num(v) + e.host && Num(s.paddr) == Num(v) + e.target;
    BothPhys(m, v, len, x, y);
  }

  lemma BothPhys(m: Machine, v: reg, len: nat, x: Access, y: Access)
    requires m.Valid() && Translate(m, v, len, x).Phys? && Translate(m, v, len, y).Phys?
    ensures Translate(m, v, len, x) == Translate(m, v, len, y)
  {
    hide WalkPage, Or, PageOff, Allowed;
    AccessSame(m, v, x, y);
  }

  // ---- the arrays

  function Index(vpn: reg): (i: nat)
    ensures i < TLB_ENTRIES
  {
    (vpn % 256) as int
  }

  predicate Small(tag: reg) {
    tag < 0x10_0000_0000_0000
  }

  lemma VpnSmall(a: reg)
    ensures Small(Vpn(a)) && Vpn(a) != NO_TAG
  {
  }

  predicate Tagged(tag: reg, vpn: reg) {
    tag & !TLB_CHECK_TRIGGERS == vpn
  }

  lemma SmallTagged(tag: reg, vpn: reg)
    requires Small(tag)
    ensures Tagged(tag, vpn) <==> tag == vpn
  {
  }

  /** Every tag of one kind stands where its page belongs and is served by the data. */
  ghost predicate Sound(m: Machine, pages: map<reg, int>, tags: seq<reg>, data: seq<Entry>, access: Access)
    requires m.Valid()
  {
    && |tags| == |data| == TLB_ENTRIES
    && forall i :: 0 <= i < TLB_ENTRIES && tags[i] != NO_TAG ==>
         Small(tags[i]) && Index(tags[i]) == i && Serves(m, pages, data[i], tags[i], access)
  }

  /** Tags after the first part of refill_tlb. */
  function Kept(tags: seq<reg>, vpn: reg): (r: seq<reg>)
    requires |tags| == TLB_ENTRIES
    ensures |r| == TLB_ENTRIES
  {
    if Tagged(tags[Index(vpn)], vpn) then tags else tags[Index(vpn) := NO_TAG]
  }

  lemma KeptSound(m: Machine, pages: map<reg, int>, tags: seq<reg>, data: seq<Entry>, e: Entry, v: reg, len: nat,
                  x: Access, y: Access)
    requires m.Valid() && Sound(m, pages, tags, data, y) && Fits(v, len) && Slow(m, pages, v, len, x).Host?
    requires var r := Slow(m, pages, v, len, x); e == Entry(r.ptr - Num(v), Num(r.paddr) - Num(v))
    ensures Sound(m, pages, Kept(tags, Vpn(v)), data[Index(Vpn(v)) := e], y)
  {
    hide Slow, Serves, Fits, Vpn, Num, Small, Index, Tagged;
    var j, t := Index(Vpn(v)), Kept(tags, Vpn(v));
    if t[j] != NO_TAG {
      SmallTagged(tags[j], Vpn(v));
      SharedEntry(m, pages, data[j], v, len, x, y);
    }
  }

  lemma FilledSound(m: Machine, pages: map<reg, int>, tags: seq<reg>, data: seq<Entry>, v: reg, access: Access)
    requires m.Valid() && Sound(m, pages, tags, data, access) && Serves(m, pages, data[Index(Vpn(v))], Vpn(v), access)
    ensures Sound(m, pages, tags[Index(Vpn(v)) := Vpn(v)], data, access)
  {
    hide Serves, Vpn, Small, Index;
    VpnSmall(v);
  }

  lemma NoneSound(m: Machine, pages: map<reg, int>, tags: seq<reg>, data: seq<Entry>, access: Access)
    requires m.Valid() && |tags| == |data| == TLB_ENTRIES && forall i :: 0 <= i < TLB_ENTRIES ==> tags[i] == NO_TAG
    ensures Sound(m, pages, tags, data, access)
  {
  }

  /** What an access function learns about an address. */
  datatype Answer = Memory(ptr: int, target: int) | Device(paddr: reg) | Exception(why: Walked)

  ghost function Expected(m: Machine, pages: map<reg, int>, a: reg, len: nat, access: Access): Answer
    requires m.Valid()
  {
    match Slow(m, pages, a, len, access)
    case Host(ptr, p) => Memory(ptr, Num(p))
    case Mmio(p) => Device(p)
    case Fault(w) => Exception(w)
  }

  /** The paging schemes that a hart is configured with. */
  datatype Impl = Impl(sv32: bool, sv39: bool, sv48: bool)

  /** satp_valid */
  predicate SatpValid(rv64: bool, impl: Impl, val: reg) {
    if !rv64 then (val >> 31) & 1 == 0 || impl.sv32
    else
      var mode := val >> 60;
      mode == 0 || (mode == 8 && impl.sv39) || (mode == 9 && impl.sv48)
  }

  /** compute_new_satp of a valid value, with 56 physical address bits. */
  function NewSatp(rv64: bool, val: reg): reg {
    if !rv64 then val & 0x803f_ffff else val & 0xf000_0fff_ffff_ffff
  }

  /** The fields of satp. */
  function ModeField(rv64: bool, satp: reg): reg {
    if rv64 then satp >> 60 else (satp >> 31) & 1
  }

  function OtherFields(rv64: bool, satp: reg): reg {
    if rv64 then satp & 0x0fff_f000_0000_0000 else satp & 0xffff_ffff_7fc0_0000
  }

  /** A valid write arrives: translation has the scheme and the root table that were
      written, and the address space identifier is dropped. */
  lemma SatpArrives(m: Machine, impl: Impl, val: reg, mode: Mode)
    requires SatpValid(m.rv64, impl, val)
    ensures var s := NewSatp(m.rv64, val);
            && DecodeVm(m.rv64, mode, s) == DecodeVm(m.rv64, mode, val)
            && PtBase(m.(satp := s)) == PtBase(m.(satp := val)) && OtherFields(m.rv64, s) == 0
  {
    hide NewSatp, ModeField, RootField, OtherFields, PtBase, DecodeVm, SatpValid;
    var s := NewSatp(m.rv64, val);
    SatpFields(m.rv64, val);
    SameMode(m.rv64, mode, s, val);
    SameRoot(m, s, val);
  }

  lemma SatpFields(rv64: bool, val: reg)
    ensures ModeField(rv64, NewSatp(rv64, val)) == ModeField(rv64, val)
    ensures RootField(rv64, NewSatp(rv64, val)) == RootField(rv64, val)
    ensures OtherFields(rv64, NewSatp(rv64, val)) == 0
  {
  }

  lemma SameMode(rv64: bool, mode: Mode, a: reg, b: reg)
    requires ModeField(rv64, a) == ModeField(rv64, b)
    ensures DecodeVm(rv64, mode, a) == DecodeVm(rv64, mode, b)
  {
  }

  lemma SameRoot(m: Machine, a: reg, b: reg)
    requires RootField(m.rv64, a) == RootField(m.rv64, b)
    ensures PtBase(m.(satp := a)) == PtBase(m.(satp := b))
  {
    hide RootField, Up;
  }

  /** Which values are valid, by their mode field. */
  lemma SatpModes(rv64: bool, impl: Impl, val: reg)
    ensures SatpValid(rv64, impl, val) <==>
            match DecodeVm(rv64, PRV_S, val)
            case Some(Bare) => true
            case Some(Sv32) => impl.sv32
            case Some(Sv39) => impl.sv39
            case Some(Sv48) => impl.sv48
            case _ => false
  {
  }

  lemma NewSatpLegal(rv64: bool, impl: Impl, val: reg, mode: Mode)
    requires SatpValid(rv64, impl, val)
    ensures DecodeVm(rv64, mode, NewSatp(rv64, val)).Some?
  {
    if rv64 {
      SatpMode(val);
    }
  }

  /** The mode field of satp is one that translation knows, whatever the privilege mode. */
  predicate LegalSatp(m: Machine) {
    DecodeVm(m.rv64, PRV_S, m.satp).Some?
  }

  lemma LegalAnyMode(m: Machine, prv: Mode)
    requires m.Valid() && LegalSatp(m)
    ensures m.(prv := prv).Valid() && LegalSatp(m.(prv := prv))
  {
  }

  lemma SatpMode(val: reg)
    ensures (val & 0xf000_0fff_ffff_ffff) >> 60 == val >> 60
  {
  }

  class Mmu {
    const insnTag: array<reg>
    const loadTag: array<reg>
    const storeTag: array<reg>
    const data: array<Entry>
    const hasPage: bool
    const impl: Impl
    const pages: map<reg, int>
    var m: Machine

    ghost predicate Shaped()
      reads this
    {
      && insnTag.Length == TLB_ENTRIES && loadTag.Length == TLB_ENTRIES
      && storeTag.Length == TLB_ENTRIES && data.Length == TLB_ENTRIES
      && insnTag != loadTag && loadTag != storeTag && insnTag != storeTag
      && {data as object} !! {insnTag as object, loadTag, storeTag}
      && m.Valid() && LegalSatp(m) && (!hasPage ==> m.satp == 0)
    }

    ghost predicate Valid()
      reads this, insnTag, loadTag, storeTag, data
    {
      && Shaped()
      && Sound(m, pages, insnTag[..], data[..], FETCH)
      && Sound(m, pages, loadTag[..], data[..], LOAD)
      && Sound(m, pages, storeTag[..], data[..], STORE)
    }

    constructor (m: Machine, hasPage: bool, impl: Impl, pages: map<reg, int>)
      requires m.Valid() && LegalSatp(m) && (!hasPage ==> m.satp == 0)
      ensures Valid() && this.m == m && this.pages == pages && this.hasPage == hasPage && this.impl == impl
      ensures fresh(insnTag) && fresh(loadTag) && fresh(storeTag) && fresh(data)
    {
      this.m, this.hasPage, this.impl, this.pages := m, hasPage, impl, pages;
      insnTag := new reg[TLB_ENTRIES](_ => 0);
      loadTag := new reg[TLB_ENTRIES](_ => 0);
      storeTag := new reg[TLB_ENTRIES](_ => 0);
      data := new Entry[TLB_ENTRIES](_ => Entry(0, 0));
      new;
      FlushTlb();
    }

    /** memset of one tag array. */
    method Wipe(tags: array<reg>)
      requires tags.Length == TLB_ENTRIES
      modifies tags
      ensures forall i :: 0 <= i < TLB_ENTRIES ==> tags[..][i] == NO_TAG
    {
      for i := 0 to TLB_ENTRIES
        invariant forall j :: 0 <= j < i ==> tags[j] == NO_TAG
      {
        tags[i] := NO_TAG;
      }
    }

    /** flush_tlb */
    method FlushTlb()
      requires Shaped()
      modifies insnTag, loadTag, storeTag
      ensures Valid() && Empty()
    {
      Wipe(insnTag);
      Wipe(loadTag);
      Wipe(storeTag);
      NoneSound(m, pages, insnTag[..], data[..], FETCH);
      NoneSound(m, pages, loadTag[..], data[..], LOAD);
      NoneSound(m, pages, storeTag[..], data[..], STORE);
    }

    ghost predicate Empty()
      reads this, insnTag, loadTag, storeTag
      requires Shaped()
    {
      forall i :: 0 <= i < TLB_ENTRIES ==> insnTag[i] == NO_TAG && loadTag[i] == NO_TAG && storeTag[i] == NO_TAG
    }

    function Tags(access: Access): array<reg> {
      match access
      case FETCH => insnTag
      case LOAD => loadTag
      case STORE => storeTag
    }

    /** Invalidate a tag of another page at the index. */
    method DropStale(tags: array<reg>, vpn: reg)
      requires tags.Length == TLB_ENTRIES
      modifies tags
      ensures tags[..] == Kept(old(tags[..]), vpn)
    {
      if !Tagged(tags[Index(vpn)], vpn) {
        tags[Index(vpn)] := NO_TAG;
      }
    }

    /** refill_tlb, with what the slow path found; no trigger is armed. */
    method RefillTlb(vaddr: reg, paddr: reg, hostAddr: int, access: Access, ghost len: nat)
      requires Valid() && Fits(vaddr, len) && Slow(m, pages, vaddr, len, access) == Host(hostAddr, paddr)
      modifies insnTag, loadTag, storeTag, data
      ensures Valid()
    {
      hide Sound, Kept, Index, Tagged, Slow, Vpn, Num, Fits, Uniformly;
      ghost var e, d := Entry(hostAddr - Num(vaddr), Num(paddr) - Num(vaddr)), data[..];
      var vpn := Vpn(vaddr);
      KeptSound(m, pages, insnTag[..], d, e, vaddr, len, access, FETCH);
      KeptSound(m, pages, loadTag[..], d, e, vaddr, len, access, LOAD);
      KeptSound(m, pages, storeTag[..], d, e, vaddr, len, access, STORE);
      DropStale(loadTag, vpn);
      DropStale(storeTag, vpn);
      DropStale(insnTag, vpn);
      data[Index(vpn)] := Entry(hostAddr - Num(vaddr), Num(paddr) - Num(vaddr));
      assert data[..] == d[Index(vpn) := e];
      PageTwice(paddr);
      var page := PageOf(paddr);
      var h := PmpHomogeneous(m.pmp, page) by { SelfInPage(paddr); }
      if h {
        NewServes(m, pages, vaddr, len, access) by { UniformIs(m, paddr); }
        MarkTag(vaddr, access);
      }
    }

    /** The tag is written, now that its data is in place. */
    method MarkTag(vaddr: reg, access: Access)
      requires Valid() && Serves(m, pages, data[..][Index(Vpn(vaddr))], Vpn(vaddr), access)
      modifies Tags(access)
      ensures Valid()
    {
      hide Sound, Index, Vpn, Serves;
      FilledSound(m, pages, Tags(access)[..], data[..], vaddr, access);
      ghost var t, i, l, s := Tags(access)[..], insnTag[..], loadTag[..], storeTag[..];
      ghost var d := data[..];
      if access == FETCH {
        insnTag[Index(Vpn(vaddr))] := Vpn(vaddr);
        assert insnTag[..] == t[Index(Vpn(vaddr)) := Vpn(vaddr)] && loadTag[..] == l && storeTag[..] == s;
      } else if access == STORE {
        storeTag[Index(Vpn(vaddr))] := Vpn(vaddr);
        assert storeTag[..] == t[Index(Vpn(vaddr)) := Vpn(vaddr)] && insnTag[..] == i && loadTag[..] == l;
      } else {
        loadTag[Index(Vpn(vaddr))] := Vpn(vaddr);
        assert loadTag[..] == t[Index(Vpn(vaddr)) := Vpn(vaddr)] && insnTag[..] == i && storeTag[..] == s;
      }
      assert data[..] == d;
    }

    /** The load, store and fetch functions: a tag hit answers from the data,
        a miss takes the slow path and refills.  Either way the answer is that
        of the slow path. */
    method Access(addr: reg, len: nat, access: Access) returns (r: Answer)
      requires Valid() && Fits(addr, len)
      modifies insnTag, loadTag, storeTag, data
      ensures Valid() && m == old(m) && r == Expected(m, pages, addr, len, access)
    {
      hide Sound, Index, Vpn, Num, Fits, Translate, AddrToMem;
      var vpn := Vpn(addr);
      if Tags(access)[Index(vpn)] == vpn {
        HitServes(m, pages, Tags(access)[..], data[..], addr, access);
        var e := data[Index(vpn)];
        HitAnswer(m, pages, e, addr, len, access);
        return Memory(e.host + Num(addr), Num(addr) + e.target);
      }
      var x := TranslateAddr(m, addr, len, access);
      if x.Trap? {
        return Exception(x.fault);
      }
      var t := AddrToMem(pages, x.paddr);
      HostOrMmio(pages, x.paddr);
      if t.Mmio? {
        return Device(x.paddr);
      }
      RefillTlb(addr, x.paddr, t.ptr, access, len);
      return Memory(t.ptr, Num(x.paddr));
    }

    // ---- changes of state that translation depends on

    /** set_privilege */
    method SetPrivilege(prv: Mode)
      requires Valid()
      modifies this`m, insnTag, loadTag, storeTag
      ensures Valid() && m == old(m).(prv := prv)
    {
      LegalAnyMode(m, prv);
      FlushTlb();
      m := m.(prv := prv);
      StillNone();
    }

    /** Tags that are all invalid are sound for any state. */
    lemma StillNone()
      requires Shaped() && Empty()
      ensures Valid()
    {
      NoneSound(m, pages, insnTag[..], data[..], FETCH);
      NoneSound(m, pages, loadTag[..], data[..], LOAD);
      NoneSound(m, pages, storeTag[..], data[..], STORE);
    }

    /** A write to satp. */
    method WriteSatp(val0: reg)
      requires Valid()
      modifies this`m, insnTag, loadTag, storeTag
      ensures Valid()
      ensures var val := if hasPage then val0 else 0;
              m == if SatpValid(m.rv64, impl, val) then old(m).(satp := NewSatp(m.rv64, val)) else old(m)
    {
      var val := if hasPage then val0 else 0;
      if SatpValid(m.rv64, impl, val) {
        FlushTlb();
        NewSatpLegal(m.rv64, impl, val, m.prv);
        NewSatpLegal(m.rv64, impl, val, PRV_S);
        m := m.(satp := NewSatp(m.rv64, val));
        StillNone();
      }
    }

    /** The part of a write to mstatus that bears on translation. */
    method WriteStatus(sum: bool, mxr: bool)
      requires Valid()
      modifies this`m, insnTag, loadTag, storeTag
      ensures Valid() && m == if hasPage then old(m).(sum := sum, mxr := mxr) else old(m)
    {
      hide Sound;
      if (hasPage && sum != m.sum) || mxr != m.mxr {
        FlushTlb();
        if hasPage {
          m := m.(sum := sum, mxr := mxr);
          StillNone();
        }
      }
    }

    /** Stores to the page tables, followed by sfence.vma. */
    method RewriteTables(ptes: map<reg, reg>)
      requires Valid()
      modifies this`m, insnTag, loadTag, storeTag
      ensures Valid() && m == old(m).(ptes := ptes)
    {
      m := m.(ptes := ptes);
      FlushTlb();
    }

    /** A write to a PMP address or configuration register. */
    method WritePmp(pmp: Unit)
      requires Valid() && pmp.Valid()
      modifies this`m, insnTag, loadTag, storeTag
      ensures Valid() && m == old(m).(pmp := pmp)
    {
      m := m.(pmp := pmp);
      FlushTlb();
    }
  }

  lemma SelfInPage(p: reg)
    ensures InPage(PageOf(p), PageOf(p))
  {
  }

  lemma UniformIs(m: Machine, p: reg)
    requires m.Valid() && UniformFrom(m.pmp, 0, 0, PageOf(p))
    ensures Uniformly(m, p)
  {
  }

  lemma HitServes(m: Machine, pages: map<reg, int>, tags: seq<reg>, data: seq<Entry>, a: reg, access: Access)
    requires m.Valid() && Sound(m, pages, tags, data, access) && tags[Index(Vpn(a))] == Vpn(a)
    ensures Serves(m, pages, data[Index(Vpn(a))], Vpn(a), access)
  {
    hide Index, Vpn, Serves;
    VpnSmall(a);
  }

  lemma HitAnswer(m: Machine, pages: map<reg, int>, e: Entry, a: reg, len: nat, access: Access)
    requires m.Valid() && Serves(m, pages, e, Vpn(a), access) && Fits(a, len)
    ensures Expected(m, pages, a, len, access) == Memory(e.host + Num(a), Num(a) + e.target)
  {
    hide Slow, Vpn, Fits, Num;
  }

  lemma HostOrMmio(pages: map<reg, int>, p: reg)
    ensures AddrToMem(pages, p).Host? || AddrToMem(pages, p).Mmio?
    ensures AddrToMem(pages, p).paddr == p
  {
  }
}
