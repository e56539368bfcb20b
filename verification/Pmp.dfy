/** Physical memory protection: the check of one access, sector by sector, and
    the page test that lets a TLB entry stand for every check in its page. */
module Pmp {
  type reg = bv64

  const PMP_R: bv8 := 0x01
  const PMP_W: bv8 := 0x02
  const PMP_X: bv8 := 0x04
  const PMP_A: bv8 := 0x18
  const PMP_L: bv8 := 0x80
  const PMP_TOR: bv8 := 0x08
  const PMP_NA4: bv8 := 0x10
  const PGSIZE: reg := 0x1000
  const PGMASK: reg := 0xffff_ffff_ffff_f000

  datatype Access = FETCH | LOAD | STORE
  datatype Mode = PRV_U | PRV_S | PRV_M

  /** The entries of a hart, and its pmp_tor_mask. */
  datatype Unit = Unit(addr: seq<reg>, cfg: seq<bv8>, torMask: reg)
  {
    predicate Valid() {
      |addr| == |cfg|
    }
  }

  function Tor(u: Unit, i: nat): reg
    requires i < |u.addr|
  {
    (u.addr[i] & u.torMask) << 2
  }

  /** The ones at the low end of a word. */
  function TrailingOnes(m: reg): reg {
    m & !(m + 1)
  }

  function NapotMask(m: reg): reg {
    !TrailingOnes(m) << 2
  }

  function Operand(addr: reg, cfg: bv8, torMask: reg): reg {
    (addr << 1) | (if cfg & PMP_A == PMP_NA4 then 0 as reg else 1) | !torMask
  }

  /** The address bits that a NA4 or NAPOT entry compares. */
  function Mask(u: Unit, i: nat): reg
    requires u.Valid() && i < |u.addr|
  {
    NapotMask(Operand(u.addr[i], u.cfg[i], u.torMask))
  }

  predicate IsTor(cfg: bv8) {
    cfg & PMP_A == PMP_TOR
  }

  predicate Between(base: reg, cur: reg, tor: reg) {
    base <= cur < tor
  }

  /** Two addresses agree on the bits of a mask. */
  predicate Agrees(a: reg, b: reg, mask: reg) {
    (a ^ b) & mask == 0
  }

  /** Entry `i`, with lower bound `base`, covers the byte address. */
  predicate Matches(u: Unit, i: nat, base: reg, cur: reg)
    requires u.Valid() && i < |u.addr|
  {
    if IsTor(u.cfg[i]) then Between(base, cur, Tor(u, i))
    else Agrees(cur, Tor(u, i), Mask(u, i))
  }

  /** What a matching entry grants. */
  predicate Grants(cfg: bv8, access: Access, mode: Mode) {
    || (mode == PRV_M && cfg & PMP_L == 0)
    || (access == LOAD && cfg & PMP_R != 0)
    || (access == STORE && cfg & PMP_W != 0)
    || (access == FETCH && cfg & PMP_X != 0)
  }

  /** The address `o` bytes on, with wrap-around. */
  function Plus(addr: reg, o: nat): reg {
    addr + (o % 0x1_0000_0000_0000_0000) as reg
  }

  ghost predicate AnyMatch(u: Unit, i: nat, base: reg, addr: reg, len: nat)
    requires u.Valid() && i < |u.addr|
  {
    exists k: nat :: 4 * k < len && Matches(u, i, base, Plus(addr, 4 * k))
  }

  ghost predicate AllMatch(u: Unit, i: nat, base: reg, addr: reg, len: nat)
    requires u.Valid() && i < |u.addr|
  {
    forall k: nat :: 4 * k < len ==> Matches(u, i, base, Plus(addr, 4 * k))
  }

  /** The first entry that covers any part of the access decides: it must cover
      all of it, and grant it.  Without such an entry only machine mode passes. */
  ghost predicate Permits(u: Unit, i: nat, base: reg, addr: reg, len: nat, access: Access, mode: Mode)
    requires u.Valid() && i <= |u.addr|
    decreases |u.addr| - i
  {
    if i == |u.addr| then mode == PRV_M
    else if u.cfg[i] & PMP_A != 0 && AnyMatch(u, i, base, addr, len) then
      AllMatch(u, i, base, addr, len) && Grants(u.cfg[i], access, mode)
    else Permits(u, i + 1, Tor(u, i), addr, len, access, mode)
  }

  /** The access is allowed. */
  ghost predicate Allowed(u: Unit, addr: reg, len: nat, access: Access, mode: Mode)
    requires u.Valid()
  {
    |u.addr| == 0 || Permits(u, 0, 0, addr, len, access, mode)
  }

  /** The loop over the sectors of an access. */
  method MatchSectors(u: Unit, i: nat, base: reg, addr: reg, len: nat) returns (any: bool, all: bool)
    requires u.Valid() && i < |u.addr|
    ensures any == AnyMatch(u, i, base, addr, len) && all == AllMatch(u, i, base, addr, len)
  {
    hide Matches, Plus;
    any, all := false, true;
    var offset := 0;
    ghost var k: nat := 0;
    while offset < len
      invariant offset == 4 * k
      invariant any <==> exists j: nat :: j < k && 4 * j < len && Matches(u, i, base, Plus(addr, 4 * j))
      invariant all <==> forall j: nat :: j < k && 4 * j < len ==> Matches(u, i, base, Plus(addr, 4 * j))
      decreases len - offset
    {
      var m := Matches(u, i, base, Plus(addr, offset));
      any := any || m;
      all := all && m;
      offset := offset + 4;
      k := k + 1;
    }
  }

  /** pmp_ok */
  method PmpOk(u: Unit, addr: reg, len: nat, access: Access, mode: Mode) returns (ok: bool)
    requires u.Valid()
    ensures ok == Allowed(u, addr, len, access, mode)
  {
    hide AnyMatch, AllMatch, Grants, Tor;
    if |u.addr| == 0 {
      return true;
    }
    var base: reg := 0;
    var i := 0;
    while i < |u.addr|
      invariant 0 <= i <= |u.addr|
      invariant Permits(u, 0, 0, addr, len, access, mode) == Permits(u, i, base, addr, len, access, mode)
    {
      if u.cfg[i] & PMP_A != 0 {
        var any, all := MatchSectors(u, i, base, addr, len);
        if any {
          return all && Grants(u.cfg[i], access, mode);
        }
      }
      base := Tor(u, i);
      i := i + 1;
    }
    return mode == PRV_M;
  }

  // ---- who decides, in bits

  /** The lower bound of an entry is the address register before it. */
  function Base(u: Unit, i: nat): reg
    requires i <= |u.addr|
  {
    if i == 0 then 0 else Tor(u, i - 1)
  }

  /** Entry `i` is on and covers some part of the access. */
  ghost predicate Touches(u: Unit, i: nat, addr: reg, len: nat)
    requires u.Valid() && i < |u.addr|
  {
    u.cfg[i] & 0x18 != 0 && AnyMatch(u, i, Base(u, i), addr, len)
  }

  lemma {:induction false} PermitsFrom(u: Unit, i: nat, k: nat, addr: reg, len: nat, access: Access, mode: Mode)
    requires u.Valid() && i <= k <= |u.addr| && forall j :: i <= j < k ==> !Touches(u, j, addr, len)
    ensures Permits(u, i, Base(u, i), addr, len, access, mode) == Permits(u, k, Base(u, k), addr, len, access, mode)
    decreases k - i
  {
    hide AnyMatch, AllMatch, Grants, Tor;
    if i < k {
      assert !Touches(u, i, addr, len);
      PermitsFrom(u, i + 1, k, addr, len, access, mode);
    }
  }

  /** The first entry that is on and covers any part of an access decides about it:
      it has to cover all of it, and then to be unlocked in machine mode or to have
      bit 0 set for a load, bit 1 for a store, or bit 2 for a fetch. */
  lemma FirstDecides(u: Unit, k: nat, addr: reg, len: nat, access: Access, mode: Mode)
    requires u.Valid() && k < |u.addr| && Touches(u, k, addr, len)
    requires forall j :: 0 <= j < k ==> !Touches(u, j, addr, len)
    ensures Allowed(u, addr, len, access, mode) <==>
            && AllMatch(u, k, Base(u, k), addr, len)
            && ((mode == PRV_M && u.cfg[k] & 0x80 == 0) ||
                u.cfg[k] & (match access case LOAD => 1 case STORE => 2 case FETCH => 4) != 0)
  {
    hide AnyMatch, AllMatch, Tor;
    PermitsFrom(u, 0, k, addr, len, access, mode);
  }

  /** Where no entry covers any part, only machine mode passes, unless there are no
      entries at all. */
  lemma NoneDecides(u: Unit, addr: reg, len: nat, access: Access, mode: Mode)
    requires u.Valid() && forall j :: 0 <= j < |u.addr| ==> !Touches(u, j, addr, len)
    ensures Allowed(u, addr, len, access, mode) <==> mode == PRV_M || |u.addr| == 0
  {
    hide AnyMatch, AllMatch, Grants, Tor;
    PermitsFrom(u, 0, |u.addr|, addr, len, access, mode);
  }

  /** A top-of-range entry covers the addresses from the register before it, times
      four, up to its own; the others compare the bits that their mask leaves. */
  lemma EntryCovers(u: Unit, i: nat, cur: reg)
    requires u.Valid() && i < |u.addr|
    ensures Matches(u, i, Base(u, i), cur) <==>
            if u.cfg[i] & 0x18 == 0x08 then Between(if i == 0 then 0 else Tor(u, i - 1), cur, Tor(u, i))
            else Agrees(cur, Tor(u, i), Mask(u, i))
  {
    hide Mask, Agrees, Tor, Between, IsTor;
    TorBits(u.cfg[i]);
  }

  lemma TorBits(cfg: bv8)
    ensures IsTor(cfg) <==> cfg & 0x18 == 0x08
  {
  }

  lemma TorIs(u: Unit, i: nat)
    requires i < |u.addr|
    ensures Tor(u, i) == (u.addr[i] & u.torMask) << 2
  {
  }

  /** At the finest granularity a four-byte entry compares all but the two lowest
      bits, and a larger one takes the ones at the low end of its register. */
  lemma MaskOf(u: Unit, i: nat)
    requires u.Valid() && i < |u.addr| && u.torMask == 0xffff_ffff_ffff_ffff
    ensures Mask(u, i) == if u.cfg[i] & 0x18 == 0x10 then 0xffff_ffff_ffff_fffc else NapotMask(Ones(u.addr[i]))
  {
    hide NapotMask, Ones, Operand, Twice;
    MaskBits(u.addr[i], u.cfg[i]);
    FourBytes(u.addr[i]);
  }

  function Twice(addr: reg): reg {
    addr << 1
  }

  function Ones(addr: reg): reg {
    (addr << 1) | 1
  }

  lemma MaskBits(addr: reg, cfg: bv8)
    ensures Operand(addr, cfg, 0xffff_ffff_ffff_ffff) == if cfg & 0x18 == 0x10 then Twice(addr) else Ones(addr)
  {
  }

  lemma FourBytes(addr: reg)
    ensures NapotMask(Twice(addr)) == 0xffff_ffff_ffff_fffc
  {
  }

  // ---- pages

  predicate InPage(page: reg, c: reg) {
    c & PGMASK == page
  }

  predicate Large(mask: reg) {
    !(mask << 1) & PGSIZE != 0
  }

  predicate OtherPage(page: reg, tor: reg) {
    (page ^ tor) / PGSIZE != 0
  }

  /** The page lies below, above or inside the bounds. */
  predicate TorUniform(page: reg, base: reg, tor: reg) {
    || page & (0 - PGSIZE) < base & (0 - PGSIZE)
    || page >= tor
    || (page >= base && page & (0 - PGSIZE) < tor & (0 - PGSIZE))
  }

  /** The page test for one active entry. */
  predicate Uniform(u: Unit, i: nat, base: reg, page: reg)
    requires u.Valid() && i < |u.addr|
  {
    if IsTor(u.cfg[i]) then TorUniform(page, base, Tor(u, i))
    else Large(Mask(u, i)) || OtherPage(page, Tor(u, i))
  }

  predicate UniformFrom(u: Unit, i: nat, base: reg, page: reg)
    requires u.Valid() && i <= |u.addr|
    decreases |u.addr| - i
  {
    i == |u.addr| || ((u.cfg[i] & PMP_A == 0 || Uniform(u, i, base, page)) && UniformFrom(u, i + 1, Tor(u, i), page))
  }

  /** pmp_homogeneous of a page. */
  method PmpHomogeneous(u: Unit, page: reg) returns (r: bool)
    requires u.Valid() && InPage(page, page)
    ensures r == UniformFrom(u, 0, 0, page)
  {
    hide Tor, Uniform;
    var base: reg := 0;
    var i := 0;
    while i < |u.addr|
      invariant 0 <= i <= |u.addr| && UniformFrom(u, 0, 0, page) == UniformFrom(u, i, base, page)
    {
      if u.cfg[i] & PMP_A != 0 {
        if !Uniform(u, i, base, page) {
          return false;
        }
      }
      base := Tor(u, i);
      i := i + 1;
    }
    return true;
  }

  // ---- what a NAPOT entry covers

  /** With `k` ones at the low end, a NAPOT entry compares all but the `k` + 2
      lowest address bits: it covers a naturally aligned range of 4 * 2^k bytes. */
  lemma NapotRegion(m: reg, k: bv7, a: reg, tor: reg)
    requires k < 62 && m & (((2 as reg) << k) - 1) == ((1 as reg) << k) - 1
    ensures Agrees(a, tor, NapotMask(m)) <==> Agrees(a, tor, 0 - ((4 as reg) << k))
  {
    hide NapotMask, Agrees;
    NapotSize(m, k);
  }

  lemma NapotSize(m: reg, k: bv7)
    requires k < 62 && m & (((2 as reg) << k) - 1) == ((1 as reg) << k) - 1
    ensures NapotMask(m) == 0 - ((4 as reg) << k)
  {
  }

  // ---- the page test is sound

  lemma BelowBound(page: reg, c: reg, x: reg)
    requires InPage(page, c) && page & (0 - PGSIZE) < x & (0 - PGSIZE)
    ensures c < x
  {
  }

  lemma AboveBound(page: reg, c: reg, x: reg)
    requires InPage(page, c)
    ensures page <= c && (page >= x ==> c >= x)
  {
  }

  /** A region of at least a page does not look at the bits inside a page. */
  lemma LargeMask(m: reg)
    requires Large(NapotMask(m))
    ensures NapotMask(m) & !PGMASK == 0
  {
  }

  /** A smaller one looks at all bits above. */
  lemma SmallMask(m: reg)
    requires !Large(NapotMask(m))
    ensures NapotMask(m) & PGMASK == PGMASK
  {
  }

  lemma LargeMatch(page: reg, c: reg, tor: reg, mask: reg)
    requires InPage(page, c) && mask & !PGMASK == 0
    ensures Agrees(c, tor, mask) == Agrees(page, tor, mask)
  {
    assert (c ^ tor) & mask == (page ^ tor) & mask;
  }

  predicate Apart(page: reg, tor: reg) {
    (page ^ tor) & PGMASK != 0
  }

  lemma OtherApart(page: reg, tor: reg)
    ensures OtherPage(page, tor) <==> Apart(page, tor)
  {
  }

  lemma SmallMatch(page: reg, c: reg, tor: reg, mask: reg)
    requires InPage(page, c) && mask & PGMASK == PGMASK && Apart(page, tor)
    ensures !Agrees(c, tor, mask)
  {
  }

  lemma PageItself(page: reg, c: reg)
    requires InPage(page, c)
    ensures InPage(page, page)
  {
  }

  lemma NapotMatch(page: reg, c: reg, tor: reg, m: reg)
    requires InPage(page, c) && (Large(NapotMask(m)) || OtherPage(page, tor))
    ensures Agrees(c, tor, NapotMask(m)) == Agrees(page, tor, NapotMask(m))
  {
    hide InPage, Large, NapotMask, Agrees, OtherPage, Apart;
    if Large(NapotMask(m)) {
      LargeMask(m);
      LargeMatch(page, c, tor, NapotMask(m));
    } else {
      SmallMask(m);
      OtherApart(page, tor);
      SmallMatch(page, c, tor, NapotMask(m));
      PageItself(page, c);
      SmallMatch(page, page, tor, NapotMask(m));
    }
  }

  lemma TorBelow(page: reg, c: reg, base: reg, tor: reg)
    requires InPage(page, c) && page & (0 - PGSIZE) < base & (0 - PGSIZE)
    ensures !Between(base, c, tor)
  {
    BelowBound(page, c, base);
  }

  lemma TorAbove(page: reg, c: reg, base: reg, tor: reg)
    requires InPage(page, c) && page >= tor
    ensures !Between(base, c, tor)
  {
    AboveBound(page, c, tor);
  }

  lemma TorWithin(page: reg, c: reg, base: reg, tor: reg)
    requires InPage(page, c) && page >= base && page & (0 - PGSIZE) < tor & (0 - PGSIZE)
    ensures Between(base, c, tor)
  {
    AboveBound(page, c, base);
    BelowBound(page, c, tor);
  }

  lemma TorMatch(page: reg, c: reg, base: reg, tor: reg)
    requires InPage(page, c) && TorUniform(page, base, tor)
    ensures Between(base, c, tor) <==> Between(base, page, tor)
  {
    hide Between, InPage;
    PageItself(page, c);
    if page & (0 - PGSIZE) < base & (0 - PGSIZE) {
      TorBelow(page, c, base, tor);
      TorBelow(page, page, base, tor);
    } else if page >= tor {
      TorAbove(page, c, base, tor);
      TorAbove(page, page, base, tor);
    } else {
      TorWithin(page, c, base, tor);
      TorWithin(page, page, base, tor);
    }
  }

  /** An entry that passes the page test covers all of the page or none of it. */
  lemma UniformMatch(u: Unit, i: nat, base: reg, page: reg, c: reg)
    requires u.Valid() && i < |u.addr| && InPage(page, c) && Uniform(u, i, base, page)
    ensures Matches(u, i, base, c) <==> Matches(u, i, base, page)
  {
    hide InPage, Large, NapotMask, Tor, Agrees, OtherPage, TorUniform, Operand, Between, IsTor;
    if IsTor(u.cfg[i]) {
      TorMatch(page, c, base, Tor(u, i));
    } else {
      NapotMatch(page, c, Tor(u, i), Operand(u.addr[i], u.cfg[i], u.torMask));
    }
  }

  /** Every sector of the access lies in the page, and there is one. */
  ghost predicate Inside(page: reg, addr: reg, len: nat) {
    len > 0 && forall k: nat :: 4 * k < len ==> InPage(page, Plus(addr, 4 * k))
  }

  lemma {:induction false} PermitsPage(u: Unit, i: nat, base: reg, page: reg, addr: reg, len: nat, access: Access,
                                       mode: Mode)
    requires u.Valid() && i <= |u.addr| && UniformFrom(u, i, base, page) && Inside(page, addr, len)
    ensures Permits(u, i, base, addr, len, access, mode) == Permits(u, i, base, page, 1, access, mode)
    decreases |u.addr| - i
  {
    hide InPage, Uniform, Matches, Tor, Grants, Plus;
    if i < |u.addr| {
      PermitsPage(u, i + 1, Tor(u, i), page, addr, len, access, mode);
      if u.cfg[i] & PMP_A != 0 {
        forall k: nat | 4 * k < len
          ensures Matches(u, i, base, Plus(addr, 4 * k)) <==> Matches(u, i, base, page)
        {
          UniformMatch(u, i, base, page, Plus(addr, 4 * k));
        }
        PlusZero(page);
        assert AnyMatch(u, i, base, page, 1) <==> Matches(u, i, base, Plus(page, 4 * 0));
        assert AllMatch(u, i, base, page, 1) <==> Matches(u, i, base, Plus(page, 4 * 0));
        assert Matches(u, i, base, Plus(addr, 4 * 0)) <==> Matches(u, i, base, page);
      }
    }
  }

  lemma PlusZero(a: reg)
    ensures Plus(a, 0) == a
  {
  }

  /** If the page test accepts a page, one answer holds for every access in it. */
  lemma HomogeneousSound(u: Unit, page: reg, addr1: reg, len1: nat, addr2: reg, len2: nat, access: Access, mode: Mode)
    requires u.Valid() && UniformFrom(u, 0, 0, page) && Inside(page, addr1, len1) && Inside(page, addr2, len2)
    ensures Allowed(u, addr1, len1, access, mode) == Allowed(u, addr2, len2, access, mode)
  {
    hide Permits, UniformFrom, Inside;
    PermitsPage(u, 0, 0, page, addr1, len1, access, mode);
    PermitsPage(u, 0, 0, page, addr2, len2, access, mode);
  }
}
