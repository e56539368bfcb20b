/** Single-stage address translation: the page table walk, as the loop of the
    code and as a search for a leaf, and the fact that everything under one leaf
    is mapped by one displacement. */
module Walk {
  import opened Bytes
  import opened Pmp

  const PTE_V: reg := 0x001
  const PTE_R: reg := 0x002
  const PTE_W: reg := 0x004
  const PTE_X: reg := 0x008
  const PTE_U: reg := 0x010
  const PTE_A: reg := 0x040
  const PTE_D: reg := 0x080
  const PTE_N: reg := 0x8000_0000_0000_0000

  datatype Scheme = Bare | Sv32 | Sv39 | Sv48 | Sv57
  {
    function Levels(): nat {
      match this
      case Bare => 0
      case Sv32 => 2
      case Sv39 => 3
      case Sv48 => 4
      case Sv57 => 5
    }

    function IdxBits(): bv7 {
      if Sv32? then 10 else 9
    }

    function PteSize(): reg {
      if Sv32? then 4 else 8
    }

    /** Levels times index bits. */
    function PtShift(i: nat): (s: bv7)
      requires i <= 5
      ensures s <= 50
    {
      if Sv32? then (if i == 0 then 0 else if i == 1 then 10 else 20)
      else if i == 0 then 0 else if i == 1 then 9 else if i == 2 then 18
      else if i == 3 then 27 else if i == 4 then 36 else 45
    }
  }

  /** The state of a hart that translation depends on; `ptes` gives the page
      table words of addresses backed by memory. */
  datatype Machine = Machine(rv64: bool, satp: reg, prv: Mode, sum: bool, mxr: bool, pmp: Unit, ptes: map<reg, reg>)
  {
    ghost predicate Valid() {
      pmp.Valid() && DecodeVm(rv64, prv, satp).Some?
    }
  }

  function Xlen(rv64: bool): bv7 {
    if rv64 then 64 else 32
  }

  /** decode_vm_info, first stage; None where the code aborts. */
  function DecodeVm(rv64: bool, mode: Mode, satp: reg): (r: Option<Scheme>)
    ensures !rv64 && r.Some? ==> r.value.Bare? || r.value.Sv32?
  {
    if mode == PRV_M then Some(Bare)
    else if !rv64 then
      if (satp >> 31) & 1 == 0 then Some(Bare) else Some(Sv32)
    else
      var f := satp >> 60;
      if f == 0 then Some(Bare) else if f == 8 then Some(Sv39) else if f == 9 then Some(Sv48)
      else if f == 10 then Some(Sv57) else None
  }

  function RootField(rv64: bool, satp: reg): reg {
    if !rv64 then satp & 0x003f_ffff else satp & 0x0fff_ffff_ffff
  }

  function PtBase(m: Machine): reg {
    Up(RootField(m.rv64, m.satp))
  }

  /** The `s` lowest bits. */
  function Low(s: bv7): reg
    requires s <= 64
  {
    ((1 as reg) << s) - 1
  }

  function LowBits(a: reg, s: bv7): reg
    requires s <= 64
  {
    a & Low(s)
  }

  function Or(x: reg, y: reg): reg {
    x | y
  }

  function Up(x: reg): reg {
    x << 12
  }

  function Plus64(x: reg, y: reg): reg {
    x + y
  }

  predicate AlignedTo(ppn: reg, s: bv7)
    requires s <= 64
  {
    ppn & Low(s) == 0
  }

  function Clear(a: reg, s: bv7): reg
    requires s <= 64
  {
    a & !Low(s)
  }

  function Vpn(addr: reg): reg {
    addr >> 12
  }

  function PageOf(a: reg): reg {
    a & PGMASK
  }

  function PageOff(a: reg): reg {
    a & !PGMASK
  }

  function Shr(a: reg, s: bv7): reg
    requires s <= 64
  {
    a >> s
  }

  /** Bits xlen-1 down to the top bit of the virtual address are equal. */
  predicate Canonical(v: Scheme, rv64: bool, addr: reg)
    requires !v.Bare? && (rv64 || v.Sv32?)
  {
    AllEqual(Shr(addr, TopBit(v)), Low(Xlen(rv64) - TopBit(v)))
  }

  predicate AllEqual(bits: reg, mask: reg) {
    bits & mask == 0 || bits & mask == mask
  }

  /** Page shift plus levels times index bits, less one. */
  function TopBit(v: Scheme): (t: bv7)
    requires !v.Bare?
  {
    12 + v.PtShift(v.Levels()) - 1
  }

  function PteAddr(v: Scheme, base: reg, addr: reg, i: nat): reg
    requires i <= 5
  {
    Slot(base, Shr(addr, 12 + v.PtShift(i)), Low(v.IdxBits()), v.PteSize())
  }

  function Slot(base: reg, bits: reg, mask: reg, size: reg): reg {
    base + (bits & mask) * size
  }

  function Ppn(pte: reg): reg {
    (pte & !PTE_N) >> 10
  }

  predicate Table(pte: reg) {
    pte & (PTE_V | PTE_R | PTE_W | PTE_X) == PTE_V
  }

  function Ctz(val: reg): (r: bv7)
    ensures r <= 63
  {
    if val == 0 then 0 else
    var (v0, r0) := if val << 32 == 0 then (val >> 32, 32 as bv7) else (val, 0);
    var (v1, r1) := if v0 << 48 == 0 then (v0 >> 16, r0 + 16) else (v0, r0);
    var (v2, r2) := if v1 << 56 == 0 then (v1 >> 8, r1 + 8) else (v1, r1);
    var (v3, r3) := if v2 << 60 == 0 then (v2 >> 4, r2 + 4) else (v2, r2);
    var (v4, r4) := if v3 << 62 == 0 then (v3 >> 2, r3 + 2) else (v3, r3);
    if v4 << 63 == 0 then r4 + 1 else r4
  }

  function NapotBits(pte: reg): (n: bv7)
    ensures n <= 64
  {
    if pte & PTE_N != 0 then Ctz(Ppn(pte)) + 1 else 0
  }

  /** The tests that a leaf has to pass, in the order of the code. */
  predicate LeafOk(v: Scheme, i: nat, pte: reg, access: Access, mode: Mode, sum: bool, mxr: bool)
    requires i <= 5
  {
    && !(if pte & PTE_U != 0 then mode == PRV_S && (access == FETCH || !sum) else mode != PRV_S)
    && !(pte & PTE_V == 0 || (pte & PTE_R == 0 && pte & PTE_W != 0))
    && !(match access
         case FETCH => pte & PTE_X == 0
         case LOAD => pte & PTE_R == 0 && !(mxr && pte & PTE_X != 0)
         case STORE => !(pte & PTE_R != 0 && pte & PTE_W != 0))
    && AlignedTo(Ppn(pte), v.PtShift(i))
    && pte & (PTE_A | if access == STORE then PTE_D else 0) == (PTE_A | if access == STORE then PTE_D else 0)
    && !(pte & PTE_N != 0 && (Ppn(pte) == 0 || i != 0))
    && (NapotBits(pte) == 0 || NapotBits(pte) == 4)
  }

  /** The page that the code computes from a leaf. */
  function LeafPage(v: Scheme, i: nat, pte: reg, addr: reg): reg
    requires i <= 5
  {
    Up(Merge(Ppn(pte), Vpn(addr), NapotBits(pte), v.PtShift(i)))
  }

  /** The page number, with its `n` and `s` lowest bits from the address. */
  function Merge(ppn: reg, vpn: reg, n: bv7, s: bv7): reg
    requires n <= 64 && s <= 64
  {
    Or(Or(Clear(ppn, n), LowBits(vpn, n)), LowBits(vpn, s))
  }

  datatype Walked = Leaf(level: nat, pte: reg) | PageFault | AccessFault

  function ReadPte(m: Machine, v: Scheme, a: reg): reg
    requires a in m.ptes
  {
    if v.Sv32? then m.ptes[a] & 0xffff_ffff else m.ptes[a]
  }

  /** What one page table word says: go on at a table, or stop. */
  datatype Step = Next(base: reg) | Stop(w: Walked)

  ghost function Visit(m: Machine, v: Scheme, i: nat, a: reg, access: Access, mode: Mode): (r: Step)
    requires m.pmp.Valid() && i <= 5
    ensures r.Stop? && r.w.Leaf? ==> r.w.level == i
  {
    if a !in m.ptes || !Allowed(m.pmp, a, if v.Sv32? then 4 else 8, LOAD, PRV_S) then Stop(AccessFault) else
    var pte := ReadPte(m, v, a);
    if Table(pte) then Next(Up(Ppn(pte)))
    else if LeafOk(v, i, pte, access, mode, m.sum, m.mxr) then Stop(Leaf(i, pte))
    else Stop(PageFault)
  }

  /** The search for a leaf with `n` levels to go. */
  ghost function FindLeaf(m: Machine, v: Scheme, addr: reg, access: Access, mode: Mode, base: reg, n: nat): (w: Walked)
    requires m.pmp.Valid() && n <= 5
    ensures w.Leaf? ==> w.level < n
    decreases n
  {
    if n == 0 then PageFault else
    match Visit(m, v, n - 1, PteAddr(v, base, addr, n - 1), access, mode)
    case Next(b) => FindLeaf(m, v, addr, access, mode, b, n - 1)
    case Stop(w) => w
  }

  ghost function Search(m: Machine, v: Scheme, addr: reg, access: Access, mode: Mode): (w: Walked)
    requires m.Valid() && !v.Bare? && (m.rv64 || v.Sv32?)
    ensures w.Leaf? ==> w.level < v.Levels()
  {
    FindLeaf(m, v, addr, access, mode, PtBase(m), if Canonical(v, m.rv64, addr) then v.Levels() else 0)
  }

  lemma {:induction false} LeafPasses(m: Machine, v: Scheme, addr: reg, access: Access, mode: Mode, base: reg, n: nat)
    requires m.pmp.Valid() && n <= 5
    ensures var w := FindLeaf(m, v, addr, access, mode, base, n);
            w.Leaf? ==> LeafOk(v, w.level, w.pte, access, mode, m.sum, m.mxr)
    decreases n
  {
    hide LeafOk, PteAddr, Visit;
    if n > 0 {
      var a := PteAddr(v, base, addr, n - 1);
      VisitPasses(m, v, n - 1, a, access, mode);
      var step := Visit(m, v, n - 1, a, access, mode);
      if step.Next? {
        LeafPasses(m, v, addr, access, mode, step.base, n - 1);
      }
    }
  }

  lemma VisitPasses(m: Machine, v: Scheme, i: nat, a: reg, access: Access, mode: Mode)
    requires m.pmp.Valid() && i <= 5
    ensures var r := Visit(m, v, i, a, access, mode);
            r.Stop? && r.w.Leaf? ==> LeafOk(v, r.w.level, r.w.pte, access, mode, m.sum, m.mxr)
  {
    hide LeafOk, Allowed, Table, Ppn, ReadPte, Up;
  }

  /** walk without a second stage: the page, or why there is none. */
  datatype Page = Page(base: reg) | NoPage(fault: Walked)

  ghost function WalkPage(m: Machine, addr: reg, access: Access): (p: Page)
    requires m.Valid()
  {
    var v := DecodeVm(m.rv64, m.prv, m.satp).value;
    if v.Bare? then Page(PageOf(LowBits(addr, Xlen(m.rv64)))) else
    FromLeaf(v, Search(m, v, addr, access, m.prv), addr)
  }

  function FromLeaf(v: Scheme, w: Walked, addr: reg): Page
    requires w.Leaf? ==> w.level <= 5
  {
    if w.Leaf? then Page(PageOf(Or(LeafPage(v, w.level, w.pte, addr), PageOff(addr)))) else NoPage(w)
  }

  // ---- masks and fields

  predicate Share(x: reg, y: reg) {
    x & y != 0
  }

  lemma DisjointBits(x: reg, y: reg)
    requires x & y == 0
    ensures x | y == x + y
  {
  }

  lemma Disjoint(x: reg, y: reg)
    requires !Share(x, y)
    ensures Or(x, y) == Plus64(x, y)
  {
    DisjointBits(x, y);
  }

  lemma Fields(addr: reg, s: bv7)
    requires s <= 50
    ensures Or(Up(LowBits(Vpn(addr), s)), PageOff(addr)) == LowBits(addr, s + 12)
  {
    hide Low;
    FieldBits(addr, s);
  }

  lemma FieldBits(addr: reg, s: bv7)
    requires s <= 50
    ensures (((addr >> 12) & Low(s)) << 12) | (addr & !PGMASK) == addr & Low(s + 12)
  {
  }

  lemma AlignedApart(ppn: reg, addr: reg, s: bv7)
    requires s <= 50 && AlignedTo(ppn, s)
    ensures !Share(Up(ppn), LowBits(addr, s + 12))
  {
  }

  /** A naturally aligned power of two range has its size in its lowest bits. */
  lemma CtzThree(val: reg)
    requires val != 0
    ensures Ctz(val) == 3 <==> val & 15 == 8
  {
  }

  // Two addresses that agree from one bit on agree from every higher bit on.

  lemma Step12(a: reg, b: reg)
    requires Shr(a, 12) == Shr(b, 12)
    ensures Shr(a, 21) == Shr(b, 21) && Shr(a, 22) == Shr(b, 22)
  {
  }

  lemma Step21(a: reg, b: reg)
    requires Shr(a, 21) == Shr(b, 21)
    ensures Shr(a, 30) == Shr(b, 30)
  {
  }

  lemma Step22(a: reg, b: reg)
    requires Shr(a, 22) == Shr(b, 22)
    ensures Shr(a, 31) == Shr(b, 31)
  {
  }

  lemma Step30(a: reg, b: reg)
    requires Shr(a, 30) == Shr(b, 30)
    ensures Shr(a, 38) == Shr(b, 38) && Shr(a, 39) == Shr(b, 39)
  {
  }

  lemma Step39(a: reg, b: reg)
    requires Shr(a, 39) == Shr(b, 39)
    ensures Shr(a, 47) == Shr(b, 47) && Shr(a, 48) == Shr(b, 48)
  {
  }

  lemma Step48(a: reg, b: reg)
    requires Shr(a, 48) == Shr(b, 48)
    ensures Shr(a, 56) == Shr(b, 56)
  {
  }

  // What they agree on is what is left when the bits below are cleared.

  lemma Clear12(a: reg, b: reg)
    requires Shr(a, 12) == Shr(b, 12)
    ensures Clear(a, 12) == Clear(b, 12)
  {
  }

  lemma Clear21(a: reg, b: reg)
    requires Shr(a, 21) == Shr(b, 21)
    ensures Clear(a, 21) == Clear(b, 21)
  {
  }

  lemma Clear22(a: reg, b: reg)
    requires Shr(a, 22) == Shr(b, 22)
    ensures Clear(a, 22) == Clear(b, 22)
  {
  }

  lemma Clear30(a: reg, b: reg)
    requires Shr(a, 30) == Shr(b, 30)
    ensures Clear(a, 30) == Clear(b, 30)
  {
  }

  lemma Clear39(a: reg, b: reg)
    requires Shr(a, 39) == Shr(b, 39)
    ensures Clear(a, 39) == Clear(b, 39)
  {
  }

  lemma Clear48(a: reg, b: reg)
    requires Shr(a, 48) == Shr(b, 48)
    ensures Clear(a, 48) == Clear(b, 48)
  {
  }

  lemma Clear16(a: reg, b: reg)
    requires Shr(a, 12) == Shr(b, 12)
    ensures Clear(a, 16) == Clear(b, 16)
  {
  }

  /** Two addresses agree above the page offset and the indices below level `i`. */
  predicate Under(v: Scheme, a: reg, b: reg, i: nat)
    requires i <= 5
  {
    Shr(a, 12 + v.PtShift(i)) == Shr(b, 12 + v.PtShift(i))
  }

  lemma UnderClear(v: Scheme, a: reg, b: reg, i: nat)
    requires !v.Bare? && i < v.Levels() && Under(v, a, b, i)
    ensures Clear(a, v.PtShift(i) + 12) == Clear(b, v.PtShift(i) + 12)
    ensures i == 0 ==> Clear(a, 16) == Clear(b, 16)
  {
    hide Clear, Shr;
    if i == 0 {
      Clear12(a, b);
      Clear16(a, b);
    } else if v.Sv32? {
      Clear22(a, b);
    } else if i == 1 {
      Clear21(a, b);
    } else if i == 2 {
      Clear30(a, b);
    } else if i == 3 {
      Clear39(a, b);
    } else {
      Clear48(a, b);
    }
  }

  lemma UnderIndex(v: Scheme, a: reg, b: reg, i: nat, j: nat)
    requires !v.Bare? && i <= j < v.Levels() && Under(v, a, b, i)
    ensures Shr(a, 12 + v.PtShift(j)) == Shr(b, 12 + v.PtShift(j)) && Shr(a, TopBit(v)) == Shr(b, TopBit(v))
  {
    hide Clear, Shr;
    if i == 0 {
      Step12(a, b);
    }
    if v.Sv32? {
      Step22(a, b);
    } else {
      if i <= 1 {
        Step21(a, b);
      }
      if i <= 2 {
        Step30(a, b);
      }
      if i <= 3 && !v.Sv39? {
        Step39(a, b);
      }
      if v.Sv57? {
        Step48(a, b);
      }
    }
  }

  // ---- what a leaf maps

  lemma JoinOr(p: reg, f: reg, l: reg)
    ensures Or(Up(Or(p, f)), l) == Or(Up(p), Or(Up(f), l))
  {
  }

  lemma PlainSum(ppn: reg, addr: reg, s: bv7)
    requires s <= 50 && AlignedTo(ppn, s)
    ensures Or(Up(Or(ppn, LowBits(Vpn(addr), s))), PageOff(addr)) == Plus64(Up(ppn), LowBits(addr, s + 12))
  {
    hide Low, Or, Up, LowBits, PageOff, Plus64, Share, AlignedTo, Vpn;
    Fields(addr, s);
    AlignedApart(ppn, addr, s);
    Disjoint(Up(ppn), LowBits(addr, s + 12));
    JoinOr(ppn, LowBits(Vpn(addr), s), PageOff(addr));
  }

  lemma NoBits(x: reg)
    ensures LowBits(x, 0) == 0 && Clear(x, 0) == x && Or(x, 0) == x
  {
  }

  lemma ClearAligned(ppn: reg)
    ensures AlignedTo(Clear(ppn, 4), 4)
  {
  }

  /** Where a leaf maps to, and how many low bits of the address it keeps. */
  function LeafBase(pte: reg): reg {
    Up(Clear(Ppn(pte), NapotBits(pte)))
  }

  function Span(v: Scheme, i: nat, pte: reg): (s: bv7)
    requires i <= 5
    ensures s <= 64
  {
    if NapotBits(pte) == 0 then v.PtShift(i) + 12 else 16
  }

  lemma LeafFacts(v: Scheme, i: nat, pte: reg, access: Access, mode: Mode, sum: bool, mxr: bool)
    requires i <= 5 && LeafOk(v, i, pte, access, mode, sum, mxr)
    ensures NapotBits(pte) == 0 || (NapotBits(pte) == 4 && i == 0)
    ensures AlignedTo(Ppn(pte), v.PtShift(i))
  {
    hide Ppn, Low, Ctz, AlignedTo;
  }

  /** A leaf that passes maps the address to its base plus the low bits. */
  lemma LeafLinear(v: Scheme, i: nat, pte: reg, access: Access, mode: Mode, sum: bool, mxr: bool, addr: reg)
    requires i <= 5 && LeafOk(v, i, pte, access, mode, sum, mxr)
    ensures Or(LeafPage(v, i, pte, addr), PageOff(addr)) == Plus64(LeafBase(pte), LowBits(addr, Span(v, i, pte)))
  {
    hide Ppn, Low, NapotBits, Or, Up, LowBits, PageOff, Plus64, LeafOk, AlignedTo, Clear, Vpn;
    LeafFacts(v, i, pte, access, mode, sum, mxr);
    var ppn, vpn := Ppn(pte), Vpn(addr);
    NoBits(vpn);
    NoBits(ppn);
    if NapotBits(pte) == 0 {
      PlainSum(ppn, addr, v.PtShift(i));
    } else {
      NoBits(Or(Clear(ppn, 4), LowBits(vpn, 4)));
      ClearAligned(ppn);
      PlainSum(Clear(ppn, 4), addr, 4);
    }
  }

  // ---- translation

  datatype Xlate = Phys(paddr: reg) | Trap(fault: Walked)

  /** translate, with MPRV clear. */
  ghost function Translate(m: Machine, addr: reg, len: nat, access: Access): Xlate
    requires m.Valid()
  {
    match WalkPage(m, addr, access)
    case NoPage(w) => Trap(w)
    case Page(b) =>
      if Allowed(m.pmp, Or(b, PageOff(addr)), len, access, m.prv) then Phys(Or(b, PageOff(addr))) else Trap(AccessFault)
  }

  lemma PageOr(q: reg, addr: reg)
    ensures Or(PageOf(Or(Up(q), PageOff(addr))), PageOff(addr)) == Or(Up(q), PageOff(addr))
  {
  }

  /** Superpages are linear: under a leaf at level `i` the physical address is the
      base of the leaf plus the low bits of the virtual address, as many as the
      leaf spans. */
  lemma TranslateLinear(m: Machine, v: Scheme, addr: reg, len: nat, access: Access)
    requires m.Valid() && DecodeVm(m.rv64, m.prv, m.satp) == Some(v) && !v.Bare?
    requires Search(m, v, addr, access, m.prv).Leaf? && Translate(m, addr, len, access).Phys?
    ensures var w := Search(m, v, addr, access, m.prv);
            Translate(m, addr, len, access).paddr == Plus64(LeafBase(w.pte), LowBits(addr, Span(v, w.level, w.pte)))
  {
    hide Or, PageOff, Plus64, LowBits, LeafOk, LeafBase;
    hide Span, FromLeaf, Search, DecodeVm, WalkPage, Translate, Scheme.PtShift;
    PhysPage(m, addr, len, access);
    PageFromLeaf(m, v, addr, access);
    SearchPasses(m, v, addr, access);
    LinearFrom(v, Search(m, v, addr, access, m.prv), addr, access, m.prv, m.sum, m.mxr);
  }

  lemma LinearFrom(v: Scheme, w: Walked, addr: reg, access: Access, mode: Mode, sum: bool, mxr: bool)
    requires w.Leaf? && w.level <= 5 && LeafOk(v, w.level, w.pte, access, mode, sum, mxr)
    ensures FromLeaf(v, w, addr).Page?
    ensures Or(FromLeaf(v, w, addr).base, PageOff(addr)) ==
              Plus64(LeafBase(w.pte), LowBits(addr, Span(v, w.level, w.pte)))
  {
    hide Or, PageOff, Plus64, LowBits, LeafOk, LeafBase, Span, LeafPage, FromLeaf, Scheme.PtShift;
    LeafLinear(v, w.level, w.pte, access, mode, sum, mxr, addr);
    LeafWhole(v, w, addr);
  }

  lemma PhysPage(m: Machine, addr: reg, len: nat, access: Access)
    requires m.Valid() && Translate(m, addr, len, access).Phys?
    ensures WalkPage(m, addr, access).Page?
    ensures Translate(m, addr, len, access).paddr == Or(WalkPage(m, addr, access).base, PageOff(addr))
  {
    hide WalkPage, Or, PageOff, Allowed;
  }

  lemma PageFromLeaf(m: Machine, v: Scheme, addr: reg, access: Access)
    requires m.Valid() && DecodeVm(m.rv64, m.prv, m.satp) == Some(v) && !v.Bare?
    ensures WalkPage(m, addr, access) == FromLeaf(v, Search(m, v, addr, access, m.prv), addr)
  {
    hide Search, FromLeaf, DecodeVm, LowBits, PageOf;
  }

  /** Cutting off the page offset and putting it back. */
  lemma LeafWhole(v: Scheme, w: Walked, addr: reg)
    requires w.Leaf? && w.level <= 5
    ensures FromLeaf(v, w, addr).Page?
    ensures Or(FromLeaf(v, w, addr).base, PageOff(addr)) == Or(LeafPage(v, w.level, w.pte, addr), PageOff(addr))
  {
    hide Or, Up, PageOff, Merge, Ppn, Vpn, NapotBits;
    PageOr(Merge(Ppn(w.pte), Vpn(addr), NapotBits(w.pte), v.PtShift(w.level)), addr);
  }

  lemma SearchPasses(m: Machine, v: Scheme, addr: reg, access: Access)
    requires m.Valid() && DecodeVm(m.rv64, m.prv, m.satp) == Some(v) && !v.Bare?
    ensures var w := Search(m, v, addr, access, m.prv);
            w.Leaf? ==> LeafOk(v, w.level, w.pte, access, m.prv, m.sum, m.mxr)
  {
    hide LeafOk, FindLeaf, Canonical, DecodeVm, PtBase;
    LeafPasses(m, v, addr, access, m.prv, PtBase(m), if Canonical(v, m.rv64, addr) then v.Levels() else 0);
  }

  lemma PteAddrSame(v: Scheme, a: reg, b: reg, base: reg, i: nat, j: nat)
    requires !v.Bare? && i <= j < v.Levels() && Under(v, a, b, i)
    ensures PteAddr(v, base, a, j) == PteAddr(v, base, b, j)
  {
    hide Shr, Low, Under, Slot;
    UnderIndex(v, a, b, i, j);
  }

  lemma CanonicalSame(v: Scheme, rv64: bool, a: reg, b: reg, i: nat)
    requires !v.Bare? && (rv64 || v.Sv32?) && i < v.Levels() && Under(v, a, b, i)
    ensures Canonical(v, rv64, a) == Canonical(v, rv64, b)
  {
    hide Shr, Low, Under, AllEqual;
    UnderIndex(v, a, b, i, i);
  }

  /** The search looks at an address from the leaf it ends at upwards, no lower. */
  lemma {:induction false} FindSame(m: Machine, v: Scheme, a: reg, b: reg, access: Access, mode: Mode, base: reg,
                                    n: nat, i: nat)
    requires m.pmp.Valid() && !v.Bare? && n <= v.Levels() && i < v.Levels() && Under(v, a, b, i)
    requires i == 0 || (FindLeaf(m, v, a, access, mode, base, n).Leaf? &&
                        FindLeaf(m, v, a, access, mode, base, n).level >= i)
    ensures FindLeaf(m, v, b, access, mode, base, n) == FindLeaf(m, v, a, access, mode, base, n)
    decreases n
  {
    hide Visit, PteAddr, Under;
    if n > 0 {
      PteAddrSame(v, a, b, base, i, n - 1);
      var step := Visit(m, v, n - 1, PteAddr(v, base, a, n - 1), access, mode);
      if step.Next? {
        FindSame(m, v, a, b, access, mode, step.base, n - 1, i);
      }
    }
  }

  lemma SearchSame(m: Machine, v: Scheme, a: reg, b: reg, access: Access, i: nat)
    requires m.Valid() && DecodeVm(m.rv64, m.prv, m.satp) == Some(v) && !v.Bare? && i < v.Levels() && Under(v, a, b, i)
    requires i == 0 || (Search(m, v, a, access, m.prv).Leaf? && Search(m, v, a, access, m.prv).level >= i)
    ensures Search(m, v, b, access, m.prv) == Search(m, v, a, access, m.prv)
  {
    hide FindLeaf, Canonical, Under, DecodeVm, PtBase;
    CanonicalSame(v, m.rv64, a, b, i);
    FindSame(m, v, a, b, access, m.prv, PtBase(m), if Canonical(v, m.rv64, a) then v.Levels() else 0, i);
  }

  /** One displacement for all addresses under one leaf: the walk of any other
      address under it ends at the same leaf, and both are mapped to the same
      base plus their low bits, while their high bits agree. */
  lemma SharedLeaf(m: Machine, v: Scheme, a: reg, b: reg, access: Access, la: nat, lb: nat)
    requires m.Valid() && DecodeVm(m.rv64, m.prv, m.satp) == Some(v) && !v.Bare?
    requires Search(m, v, a, access, m.prv).Leaf? && Under(v, a, b, Search(m, v, a, access, m.prv).level)
    ensures var w := Search(m, v, a, access, m.prv);
            var s := Span(v, w.level, w.pte);
            && Search(m, v, b, access, m.prv) == w
            && Clear(a, s) == Clear(b, s)
            && (Translate(m, a, la, access).Phys? ==>
                Translate(m, a, la, access).paddr == Plus64(LeafBase(w.pte), LowBits(a, s)))
            && (Translate(m, b, lb, access).Phys? ==>
                Translate(m, b, lb, access).paddr == Plus64(LeafBase(w.pte), LowBits(b, s)))
  {
    hide Search, Translate, DecodeVm, LowBits, Clear, LeafBase, PageOff, Plus64, LeafOk, NapotBits, Under;
    var w := Search(m, v, a, access, m.prv);
    SearchSame(m, v, a, b, access, w.level);
    SearchPasses(m, v, a, access);
    LeafFacts(v, w.level, w.pte, access, m.prv, m.sum, m.mxr);
    UnderClear(v, a, b, w.level);
    if Translate(m, a, la, access).Phys? {
      TranslateLinear(m, v, a, la, access);
    }
    if Translate(m, b, lb, access).Phys? {
      TranslateLinear(m, v, b, lb, access);
    }
  }

  // ---- the loop of the code

  /** One round of the loop. */
  method VisitPte(m: Machine, v: Scheme, i: nat, a: reg, access: Access, mode: Mode) returns (r: Step)
    requires m.pmp.Valid() && i <= 5
    ensures r == Visit(m, v, i, a, access, mode)
  {
    hide LeafOk, Allowed, Table, Ppn, ReadPte, Up;
    if a !in m.ptes {
      return Stop(AccessFault);
    }
    var ok := PmpOk(m.pmp, a, if v.Sv32? then 4 else 8, LOAD, PRV_S);
    if !ok {
      return Stop(AccessFault);
    }
    var pte := ReadPte(m, v, a);
    if Table(pte) {
      return Next(Up(Ppn(pte)));
    } else if !LeafOk(v, i, pte, access, mode, m.sum, m.mxr) {
      return Stop(PageFault);
    } else {
      return Stop(Leaf(i, pte));
    }
  }

  /** walk, single stage. */
  method WalkTable(m: Machine, addr: reg, access: Access) returns (p: Page)
    requires m.Valid()
    ensures p == WalkPage(m, addr, access)
  {
    hide Visit, PteAddr, Canonical, FromLeaf, DecodeVm, PtBase, LowBits, PageOf;
    var v := DecodeVm(m.rv64, m.prv, m.satp).value;
    if v.Bare? {
      return Page(PageOf(LowBits(addr, Xlen(m.rv64))));
    }
    var n := if Canonical(v, m.rv64, addr) then v.Levels() else 0;
    var base := PtBase(m);
    while n > 0
      invariant 0 <= n <= v.Levels()
      invariant Search(m, v, addr, access, m.prv) == FindLeaf(m, v, addr, access, m.prv, base, n)
    {
      var r := VisitPte(m, v, n - 1, PteAddr(v, base, addr, n - 1), access, m.prv);
      match r {
        case Stop(w) => return FromLeaf(v, w, addr);
        case Next(b) => base := b;
      }
      n := n - 1;
    }
    return FromLeaf(v, PageFault, addr);
  }

  /** translate */
  method TranslateAddr(m: Machine, addr: reg, len: nat, access: Access) returns (x: Xlate)
    requires m.Valid()
    ensures x == Translate(m, addr, len, access)
  {
    hide WalkPage, Allowed, Or, PageOff;
    var p := WalkTable(m, addr, access);
    if p.NoPage? {
      return Trap(p.fault);
    }
    var paddr := Or(p.base, PageOff(addr));
    var ok := PmpOk(m.pmp, paddr, len, access, m.prv);
    return if ok then Phys(paddr) else Trap(AccessFault);
  }

  // ---- what does not matter to a walk

  lemma SameFrom12(a: reg, b: reg)
    requires Vpn(a) == Vpn(b)
    ensures Shr(a, 12) == Shr(b, 12)
  {
  }

  lemma PageOnly(q: reg, a: reg)
    ensures PageOf(Or(Up(q), PageOff(a))) == Up(q)
  {
  }

  lemma BarePage(a: reg, b: reg, rv64: bool)
    requires Vpn(a) == Vpn(b)
    ensures PageOf(LowBits(a, Xlen(rv64))) == PageOf(LowBits(b, Xlen(rv64)))
  {
    if !rv64 {
      Bare32(a, b);
    } else {
      Bare64(a, b);
    }
  }

  lemma Bare32(a: reg, b: reg)
    requires Vpn(a) == Vpn(b)
    ensures PageOf(LowBits(a, 32)) == PageOf(LowBits(b, 32))
  {
  }

  lemma Bare64(a: reg, b: reg)
    requires Vpn(a) == Vpn(b)
    ensures PageOf(LowBits(a, 64)) == PageOf(LowBits(b, 64))
  {
  }

  /** The walk depends on the virtual page, not on the offset in it. */
  lemma PageUniform(m: Machine, a: reg, b: reg, access: Access)
    requires m.Valid() && Vpn(a) == Vpn(b)
    ensures WalkPage(m, a, access) == WalkPage(m, b, access)
  {
    hide Search, DecodeVm, LowBits, PageOf, Vpn, FromLeaf;
    var v := DecodeVm(m.rv64, m.prv, m.satp).value;
    if v.Bare? {
      BarePage(a, b, m.rv64);
    } else {
      SameFrom12(a, b);
      SearchSame(m, v, a, b, access, 0) by { assert Under(v, a, b, 0); }
      FromLeafSame(v, Search(m, v, a, access, m.prv), a, b);
    }
  }

  lemma FromLeafSame(v: Scheme, w: Walked, a: reg, b: reg)
    requires Vpn(a) == Vpn(b) && (w.Leaf? ==> w.level <= 5)
    ensures FromLeaf(v, w, a) == FromLeaf(v, w, b)
  {
    hide Or, Up, PageOff, PageOf, Merge, Vpn, Ppn, NapotBits;
    if w.Leaf? {
      var q := Merge(Ppn(w.pte), Vpn(a), NapotBits(w.pte), v.PtShift(w.level));
      PageOnly(q, a);
      PageOnly(q, b);
    }
  }

  /** Accesses of two kinds that are both mapped are mapped to one page. */
  lemma AccessSame(m: Machine, a: reg, x: Access, y: Access)
    requires m.Valid() && WalkPage(m, a, x).Page? && WalkPage(m, a, y).Page?
    ensures WalkPage(m, a, x) == WalkPage(m, a, y)
  {
    hide FindLeaf, DecodeVm, LowBits, PageOf, FromLeaf, Canonical, PtBase;
    var v := DecodeVm(m.rv64, m.prv, m.satp).value;
    if !v.Bare? {
      NoLeafNoPage(v, Search(m, v, a, x, m.prv), a);
      NoLeafNoPage(v, Search(m, v, a, y, m.prv), a);
      FindSameLeaf(m, v, a, x, y, m.prv, PtBase(m), if Canonical(v, m.rv64, a) then v.Levels() else 0);
    }
  }

  lemma NoLeafNoPage(v: Scheme, w: Walked, a: reg)
    requires w.Leaf? ==> w.level <= 5
    ensures FromLeaf(v, w, a).Page? <==> w.Leaf?
  {
  }

  lemma {:induction false} FindSameLeaf(m: Machine, v: Scheme, a: reg, x: Access, y: Access, mode: Mode, base: reg,
                                        n: nat)
    requires m.pmp.Valid() && n <= 5
    requires FindLeaf(m, v, a, x, mode, base, n).Leaf? && FindLeaf(m, v, a, y, mode, base, n).Leaf?
    ensures FindLeaf(m, v, a, x, mode, base, n) == FindLeaf(m, v, a, y, mode, base, n)
    decreases n
  {
    hide Visit, PteAddr;
    var s := PteAddr(v, base, a, n - 1);
    VisitSame(m, v, n - 1, s, x, y, mode);
    var step := Visit(m, v, n - 1, s, x, mode);
    if step.Next? {
      FindSameLeaf(m, v, a, x, y, mode, step.base, n - 1);
    }
  }

  lemma VisitSame(m: Machine, v: Scheme, i: nat, a: reg, x: Access, y: Access, mode: Mode)
    requires m.pmp.Valid() && i <= 5
    ensures var r, s := Visit(m, v, i, a, x, mode), Visit(m, v, i, a, y, mode);
            (r.Next? || s.Next? ==> r == s) && (r.Stop? && s.Stop? && r.w.Leaf? && s.w.Leaf? ==> r == s)
  {
    hide LeafOk, Allowed, Table, Ppn, ReadPte, Up;
  }
}
