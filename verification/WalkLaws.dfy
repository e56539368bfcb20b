/** Translation by the book: what a page table word permits, where the walk looks
    for it, and that an access is mapped exactly when the word permits it.  Bits
    and fields are those of the RISC-V privileged architecture, written out. */
module WalkLaws {
  import opened Bytes
  import opened Pmp
  import opened Walk

  // ---- permissions

  /** Valid, accessed, and open to the mode and to the access. */
  predicate Permitted(pte: reg, access: Access, mode: Mode, sum: bool, mxr: bool) {
    var r, w, x, u, d := pte & 0x2 != 0, pte & 0x4 != 0, pte & 0x8 != 0, pte & 0x10 != 0, pte & 0x80 != 0;
    && pte & 0x1 != 0 && pte & 0x40 != 0 && (w ==> r)
    && (mode == PRV_S && u ==> sum && access != FETCH) && (mode != PRV_S ==> u)
    && (access == FETCH ==> x) && (access == LOAD ==> r || (mxr && x)) && (access == STORE ==> r && w && d)
  }

  /** A leaf of its level: aligned, or one of sixteen pages. */
  predicate WellFormed(v: Scheme, i: nat, pte: reg)
    requires i <= 5
  {
    if pte & 0x8000_0000_0000_0000 == 0 then AlignedTo(Ppn(pte), v.PtShift(i))
    else i == 0 && pte & 0x3c00 == 0x2000
  }

  lemma LeafIff(v: Scheme, i: nat, pte: reg, access: Access, mode: Mode, sum: bool, mxr: bool)
    requires i <= 5
    ensures LeafOk(v, i, pte, access, mode, sum, mxr) <==>
            Permitted(pte, access, mode, sum, mxr) && WellFormed(v, i, pte)
  {
    hide Ctz;
    if pte & PTE_N != 0 {
      hide LeafOk, Permitted;
      NapotLeaf(v, i, pte);
      LeafParts(v, i, pte, access, mode, sum, mxr);
    } else {
      hide Ppn, AlignedTo;
    }
  }

  predicate Formed(v: Scheme, i: nat, pte: reg)
    requires i <= 5
  {
    && AlignedTo(Ppn(pte), v.PtShift(i)) && !(pte & PTE_N != 0 && (Ppn(pte) == 0 || i != 0))
    && (NapotBits(pte) == 0 || NapotBits(pte) == 4)
  }

  lemma LeafParts(v: Scheme, i: nat, pte: reg, access: Access, mode: Mode, sum: bool, mxr: bool)
    requires i <= 5
    ensures LeafOk(v, i, pte, access, mode, sum, mxr) <==>
            Permitted(pte, access, mode, sum, mxr) && Formed(v, i, pte)
  {
    hide Ctz, Ppn, AlignedTo, NapotBits;
  }

  lemma NapotLeaf(v: Scheme, i: nat, pte: reg)
    requires i <= 5 && pte & PTE_N != 0
    ensures Formed(v, i, pte) <==> i == 0 && pte & 0x3c00 == 0x2000
  {
    hide Ctz;
    PpnLow(pte);
    if Ppn(pte) != 0 {
      CtzThree(Ppn(pte));
    }
    if i == 0 {
      NoShift(Ppn(pte));
    }
  }

  lemma PpnLow(pte: reg)
    ensures Ppn(pte) & 15 == 8 <==> pte & 0x3c00 == 0x2000
    ensures pte & 0x3c00 == 0x2000 ==> Ppn(pte) != 0
  {
  }

  lemma NoShift(ppn: reg)
    ensures AlignedTo(ppn, 0)
  {
  }

  // ---- where the walk looks

  /** Valid, and neither readable nor writable nor executable. */
  predicate Points(pte: reg) {
    pte & 0xf == 0x1
  }

  /** The page number field, in pages. */
  function NextTable(pte: reg): reg {
    ((pte & 0x7fff_ffff_ffff_ffff) >> 10) << 12
  }

  /** The word that a walk comes to, past the tables, whatever the access. */
  ghost function LastWord(m: Machine, v: Scheme, addr: reg, base: reg, n: nat): (w: Walked)
    requires m.pmp.Valid() && n <= 5
    ensures w.Leaf? ==> w.level < n
    decreases n
  {
    if n == 0 then PageFault else
    var a := PteAddr(v, base, addr, n - 1);
    if a !in m.ptes || !Allowed(m.pmp, a, if v.Sv32? then 4 else 8, LOAD, PRV_S) then AccessFault else
    var pte := ReadPte(m, v, a);
    if Points(pte) then LastWord(m, v, addr, NextTable(pte), n - 1) else Leaf(n - 1, pte)
  }

  /** The leaf stands if it permits the access and is well formed. */
  function Checked(v: Scheme, w: Walked, access: Access, m: Machine): Walked
    requires w.Leaf? ==> w.level <= 5
  {
    if w.Leaf? && !(Permitted(w.pte, access, m.prv, m.sum, m.mxr) && WellFormed(v, w.level, w.pte)) then PageFault
    else w
  }

  lemma TableBits(pte: reg)
    ensures Table(pte) <==> Points(pte)
    ensures Up(Ppn(pte)) == NextTable(pte)
  {
  }

  lemma VisitIff(m: Machine, v: Scheme, i: nat, a: reg, access: Access)
    requires m.pmp.Valid() && i <= 5
    requires a in m.ptes && Allowed(m.pmp, a, if v.Sv32? then 4 else 8, LOAD, PRV_S)
    ensures var pte := ReadPte(m, v, a);
            Visit(m, v, i, a, access, m.prv) ==
              if Points(pte) then Next(NextTable(pte)) else Stop(Checked(v, Leaf(i, pte), access, m))
  {
    hide Allowed, ReadPte, Table, Ppn, Up, LeafOk, Permitted, WellFormed, Points, NextTable;
    var pte := ReadPte(m, v, a);
    TableBits(pte);
    LeafIff(v, i, pte, access, m.prv, m.sum, m.mxr);
  }

  lemma {:induction false} FindLeafIff(m: Machine, v: Scheme, addr: reg, access: Access, base: reg, n: nat)
    requires m.pmp.Valid() && n <= 5
    ensures FindLeaf(m, v, addr, access, m.prv, base, n) == Checked(v, LastWord(m, v, addr, base, n), access, m)
    decreases n
  {
    hide PteAddr, Allowed, ReadPte, Permitted, WellFormed, Points, NextTable;
    if n > 0 {
      var a := PteAddr(v, base, addr, n - 1);
      if a in m.ptes && Allowed(m.pmp, a, if v.Sv32? then 4 else 8, LOAD, PRV_S) {
        var pte := ReadPte(m, v, a);
        VisitIff(m, v, n - 1, a, access);
        hide Visit;
        if Points(pte) {
          FindLeafIff(m, v, addr, access, NextTable(pte), n - 1);
        }
      } else {
        hide LeafOk, Table, Ppn, Up;
        assert Visit(m, v, n - 1, a, access, m.prv) == Stop(AccessFault);
      }
    }
  }

  /** The word that translation rests on, from the root table of satp; none when the
      address is not canonical. */
  ghost function Word(m: Machine, v: Scheme, addr: reg): (w: Walked)
    requires m.Valid() && !v.Bare? && (m.rv64 || v.Sv32?)
    ensures w.Leaf? ==> w.level < v.Levels()
  {
    LastWord(m, v, addr, PtBase(m), if Canonical(v, m.rv64, addr) then v.Levels() else 0)
  }

  /** The search ends at that word exactly when it permits the access and is well
      formed; otherwise it faults. */
  lemma SearchIff(m: Machine, v: Scheme, addr: reg, access: Access)
    requires m.Valid() && !v.Bare? && (m.rv64 || v.Sv32?)
    ensures Search(m, v, addr, access, m.prv) == Checked(v, Word(m, v, addr), access, m)
  {
    hide FindLeaf, LastWord, Canonical, PtBase, Checked;
    FindLeafIff(m, v, addr, access, PtBase(m), if Canonical(v, m.rv64, addr) then v.Levels() else 0);
  }

  /** Translation: an access is mapped exactly when the word permits it, the word is
      well formed, and physical memory protection passes; then it goes to the base
      of the leaf plus the low bits of the address. */
  lemma TranslateIff(m: Machine, v: Scheme, addr: reg, len: nat, access: Access)
    requires m.Valid() && DecodeVm(m.rv64, m.prv, m.satp) == Some(v) && !v.Bare?
    ensures var w := Word(m, v, addr);
            if w.Leaf? && Permitted(w.pte, access, m.prv, m.sum, m.mxr) && WellFormed(v, w.level, w.pte) then
              var p := Plus64(LeafBase(w.pte), LowBits(addr, Span(v, w.level, w.pte)));
              Translate(m, addr, len, access) ==
                if Allowed(m.pmp, p, len, access, m.prv) then Phys(p) else Trap(AccessFault)
            else Translate(m, addr, len, access) == Trap(if w.Leaf? then PageFault else w)
  {
    hide Or, PageOff, Plus64, LowBits, LeafOk, LeafBase, Allowed, Permitted, WellFormed;
    hide Span, FromLeaf, Search, Word, DecodeVm, WalkPage, Scheme.PtShift;
    SearchIff(m, v, addr, access);
    PageFromLeaf(m, v, addr, access);
    var w := Search(m, v, addr, access, m.prv);
    if w.Leaf? {
      SearchPasses(m, v, addr, access);
      LinearFrom(v, w, addr, access, m.prv, m.sum, m.mxr);
    } else {
      NoLeaf(v, w, addr);
    }
  }

  lemma NoLeaf(v: Scheme, w: Walked, addr: reg)
    requires !w.Leaf?
    ensures FromLeaf(v, w, addr) == NoPage(w)
  {
  }

  /** Without paging an address is its own page, cut to the register width. */
  lemma TranslateBare(m: Machine, addr: reg, len: nat, access: Access)
    requires m.Valid() && DecodeVm(m.rv64, m.prv, m.satp) == Some(Bare)
    ensures WalkPage(m, addr, access) == Page(BarePage(m.rv64, addr))
  {
    hide Allowed, DecodeVm, LowBits, PageOf, BarePage, Search;
    BareBits(m.rv64, addr);
  }

  function BarePage(rv64: bool, addr: reg): reg {
    if rv64 then addr & 0xffff_ffff_ffff_f000 else addr & 0xffff_f000
  }

  lemma BareBits(rv64: bool, addr: reg)
    ensures PageOf(LowBits(addr, Xlen(rv64))) == BarePage(rv64, addr)
  {
    if rv64 {
      Bare64(addr);
    } else {
      Bare32(addr);
    }
  }

  lemma Bare64(addr: reg)
    ensures PageOf(LowBits(addr, 64)) == addr & 0xffff_ffff_ffff_f000
  {
  }

  lemma Bare32(addr: reg)
    ensures PageOf(LowBits(addr, 32)) == addr & 0xffff_f000
  {
  }

  // ---- fields

  /** The mode field of satp; machine mode does not translate. */
  lemma SatpFields(rv64: bool, mode: Mode, satp: reg)
    ensures DecodeVm(rv64, PRV_M, satp) == Some(Bare)
    ensures mode != PRV_M && !rv64 ==>
              DecodeVm(rv64, mode, satp) == Some(if satp & 0x8000_0000 == 0 then Bare else Sv32)
    ensures mode != PRV_M && rv64 ==>
              var f := satp & 0xf000_0000_0000_0000;
              && (f == 0 <==> DecodeVm(rv64, mode, satp) == Some(Bare))
              && (f == 0x8000_0000_0000_0000 <==> DecodeVm(rv64, mode, satp) == Some(Sv39))
              && (f == 0x9000_0000_0000_0000 <==> DecodeVm(rv64, mode, satp) == Some(Sv48))
              && (f == 0xa000_0000_0000_0000 <==> DecodeVm(rv64, mode, satp) == Some(Sv57))
  {
  }

  lemma RootTable(m: Machine)
    ensures m.rv64 ==> PtBase(m) == Field(m.satp, 0x0fff_ffff_ffff)
    ensures !m.rv64 ==> PtBase(m) == Field(m.satp, 0x3f_ffff)
  {
    hide Up, Part;
    RootParts(m.satp);
  }

  lemma RootParts(satp: reg)
    ensures RootField(true, satp) == Part(satp, 0x0fff_ffff_ffff)
    ensures RootField(false, satp) == Part(satp, 0x3f_ffff)
  {
  }

  function Part(word: reg, mask: reg): reg {
    word & mask
  }

  /** A page number field, as an address. */
  function Field(word: reg, mask: reg): reg {
    Up(Part(word, mask))
  }

  /** The entry of a table that bits from `s` on select. */
  function EntryAt(base: reg, addr: reg, s: bv7, mask: reg, size: reg): reg
    requires s <= 64
  {
    base + (Shr(addr, s) & mask) * size
  }

  /** Levels, and the entry of each level that an address selects. */
  lemma Slots32(base: reg, addr: reg)
    ensures Sv32.Levels() == 2
    ensures PteAddr(Sv32, base, addr, 0) == EntryAt(base, addr, 12, 0x3ff, 4)
    ensures PteAddr(Sv32, base, addr, 1) == EntryAt(base, addr, 22, 0x3ff, 4)
  {
    hide Low, Shr, Slot, EntryAt;
    Masks();
    SlotIs(base, addr, 12, 0x3ff, 4);
    SlotIs(base, addr, 22, 0x3ff, 4);
  }

  lemma Slots64(v: Scheme, base: reg, addr: reg)
    requires v.Sv39? || v.Sv48? || v.Sv57?
    ensures v.Levels() == if v.Sv39? then 3 else if v.Sv48? then 4 else 5
    ensures PteAddr(v, base, addr, 0) == EntryAt(base, addr, 12, 0x1ff, 8)
    ensures PteAddr(v, base, addr, 1) == EntryAt(base, addr, 21, 0x1ff, 8)
    ensures PteAddr(v, base, addr, 2) == EntryAt(base, addr, 30, 0x1ff, 8)
    ensures PteAddr(v, base, addr, 3) == EntryAt(base, addr, 39, 0x1ff, 8)
    ensures PteAddr(v, base, addr, 4) == EntryAt(base, addr, 48, 0x1ff, 8)
  {
    hide Low, Shr, Slot, EntryAt;
    Masks();
    SlotIs(base, addr, 12, 0x1ff, 8);
    SlotIs(base, addr, 21, 0x1ff, 8);
    SlotIs(base, addr, 30, 0x1ff, 8);
    SlotIs(base, addr, 39, 0x1ff, 8);
    SlotIs(base, addr, 48, 0x1ff, 8);
  }

  lemma Masks()
    ensures Low(9) == 0x1ff && Low(10) == 0x3ff && Low(18) == 0x3_ffff && Low(27) == 0x7ff_ffff
    ensures Low(36) == 0xf_ffff_ffff && Low(0) == 0
  {
  }

  lemma SlotIs(base: reg, addr: reg, s: bv7, mask: reg, size: reg)
    requires s <= 64
    ensures Slot(base, Shr(addr, s), mask, size) == EntryAt(base, addr, s, mask, size)
  {
    hide Shr;
  }

  /** Addresses from `low` up and below `high`, as signed numbers. */
  predicate Outside(addr: reg, high: reg, low: reg) {
    addr < high || addr >= low
  }

  /** Canonical addresses are sign extended from the top bit of the virtual address. */
  lemma SignExtended(rv64: bool, addr: reg)
    ensures Canonical(Sv32, false, addr)
    ensures Canonical(Sv39, true, addr) <==> Outside(addr, 0x40_0000_0000, 0xffff_ffc0_0000_0000)
    ensures Canonical(Sv48, true, addr) <==> Outside(addr, 0x8000_0000_0000, 0xffff_8000_0000_0000)
    ensures Canonical(Sv57, true, addr) <==> Outside(addr, 0x100_0000_0000_0000, 0xff00_0000_0000_0000)
  {
    hide Low, Shr, AllEqual, Outside;
    Extended32(addr);
    Extended39(addr);
    Extended48(addr);
    Extended57(addr);
  }

  lemma Extended32(addr: reg)
    ensures AllEqual(Shr(addr, 31), Low(1))
  {
  }

  lemma Extended39(addr: reg)
    ensures AllEqual(Shr(addr, 38), Low(26)) <==> Outside(addr, 0x40_0000_0000, 0xffff_ffc0_0000_0000)
  {
  }

  lemma Extended48(addr: reg)
    ensures AllEqual(Shr(addr, 47), Low(17)) <==> Outside(addr, 0x8000_0000_0000, 0xffff_8000_0000_0000)
  {
  }

  lemma Extended57(addr: reg)
    ensures AllEqual(Shr(addr, 56), Low(8)) <==> Outside(addr, 0x100_0000_0000_0000, 0xff00_0000_0000_0000)
  {
  }

  /** What a leaf spans, what it is aligned to, and where it maps to. */
  lemma Spans(pte: reg)
    requires pte & 0x8000_0000_0000_0000 == 0
    ensures Span(Sv32, 0, pte) == 12 && Span(Sv32, 1, pte) == 22
    ensures forall v: Scheme :: v.Sv39? || v.Sv48? || v.Sv57? ==>
              && Span(v, 0, pte) == 12 && Span(v, 1, pte) == 21 && Span(v, 2, pte) == 30
              && Span(v, 3, pte) == 39 && Span(v, 4, pte) == 48
    ensures LeafBase(pte) == ((pte >> 10) << 12)
  {
    hide Ctz;
  }

  predicate NoneOf(ppn: reg, mask: reg) {
    ppn & mask == 0
  }

  lemma AlignedIs(ppn: reg, s: bv7)
    requires s <= 64
    ensures AlignedTo(ppn, s) <==> NoneOf(ppn, Low(s))
  {
    hide Low;
  }

  lemma Alignment(ppn: reg)
    ensures AlignedTo(ppn, 0)
    ensures AlignedTo(ppn, 9) <==> NoneOf(ppn, 0x1ff)
    ensures AlignedTo(ppn, 10) <==> NoneOf(ppn, 0x3ff)
    ensures AlignedTo(ppn, 18) <==> NoneOf(ppn, 0x3_ffff)
    ensures AlignedTo(ppn, 27) <==> NoneOf(ppn, 0x7ff_ffff)
    ensures AlignedTo(ppn, 36) <==> NoneOf(ppn, 0xf_ffff_ffff)
  {
    hide Low, AlignedTo, NoneOf;
    Masks();
    NoShift(ppn);
    AlignedIs(ppn, 9);
    AlignedIs(ppn, 10);
    AlignedIs(ppn, 18);
    AlignedIs(ppn, 27);
    AlignedIs(ppn, 36);
  }

  lemma SixteenPages(v: Scheme, pte: reg)
    requires pte & 0x8000_0000_0000_0000 != 0 && pte & 0x3c00 == 0x2000
    ensures Span(v, 0, pte) == 16 && LeafBase(pte) == (pte & 0x7fff_ffff_ffff_c000) >> 10 << 12
  {
    hide Ctz, Clear;
    PpnLow(pte);
    CtzThree(Ppn(pte));
    SixteenBase(pte);
  }

  lemma SixteenBase(pte: reg)
    ensures Up(Clear(Ppn(pte), 4)) == (pte & 0x7fff_ffff_ffff_c000) >> 10 << 12
  {
  }
}
