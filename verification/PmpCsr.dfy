/** Writes to the PMP registers: what a lock bit protects, over every run of writes. */
module PmpCsr {
  import opened Pmp

  const PMP_NAPOT: bv8 := 0x18
  const CSR_PMPCFG0 := 0x3a0
  const CSR_PMPADDR0 := 0x3b0
  const MAX_PMP := 16

  /** The registers of all entries; only the first `n` are implemented. */
  datatype Regs = Regs(cfg: seq<bv8>, addr: seq<reg>, n: nat)
  {
    predicate Valid() {
      |cfg| == |addr| == MAX_PMP && n <= MAX_PMP
    }
  }

  predicate Locked(cfg: bv8) {
    cfg & PMP_L != 0
  }

  /** Eight bits for each byte. */
  function Bits(k: nat): (s: bv7)
    requires k < 8
    ensures s <= 56
  {
    if k == 0 then 0 else if k == 1 then 8 else if k == 2 then 16 else if k == 3 then 24
    else if k == 4 then 32 else if k == 5 then 40 else if k == 6 then 48 else 56
  }

  /** The byte of a written value that belongs to the `k`-th entry. */
  function ByteOf(val: reg, k: nat): bv8
    requires k < 8
  {
    ((val >> Bits(k)) & 0xff) as bv8
  }

  /** What becomes of a configuration byte: reserved bits clear, W only with R,
      and NA4 only at the finest granularity. */
  function Legalize(b: bv8, coarse: bool): bv8 {
    var c := b & (PMP_R | PMP_W | PMP_X | PMP_A | PMP_L);
    var d := c & (!PMP_W | (if c & PMP_R != 0 then PMP_W else 0));
    if coarse && d & PMP_A == PMP_NA4 then d | PMP_NAPOT else d
  }

  lemma LegalizeSafe(b: bv8, coarse: bool)
    ensures Legalize(b, coarse) & PMP_W != 0 ==> Legalize(b, coarse) & PMP_R != 0
    ensures coarse ==> Legalize(b, coarse) & PMP_A != PMP_NA4
    ensures Legalize(b, coarse) & PMP_L == b & PMP_L
  {
  }

  /** What becomes of each bit: R, X and L are kept, W too if R is set, the mode too
      but for four-byte entries at coarse granularity, and nothing else is. */
  lemma LegalizeBits(b: bv8, coarse: bool)
    ensures Legalize(b, coarse) & 0x85 == b & 0x85 && Legalize(b, coarse) & 0x60 == 0
    ensures Legalize(b, coarse) & 0x02 == if b & 0x01 != 0 then b & 0x02 else 0
    ensures Legalize(b, coarse) & 0x18 == if coarse && b & 0x18 == 0x10 then 0x18 else b & 0x18
  {
  }

  /** A byte is the part of a value that a mask leaves, `s` bits up. */
  predicate Stands(b: bv8, val: reg, s: bv7, mask: reg)
    requires s <= 64
  {
    (b as reg) << s == val & mask
  }

  /** The low byte belongs to the first entry, the high byte to the last. */
  lemma BytesStand(val: reg)
    ensures Stands(ByteOf(val, 0), val, 0, 0xff) && Stands(ByteOf(val, 1), val, 8, 0xff00)
    ensures Stands(ByteOf(val, 2), val, 16, 0xff_0000) && Stands(ByteOf(val, 3), val, 24, 0xff00_0000)
    ensures Stands(ByteOf(val, 4), val, 32, 0xff_0000_0000) && Stands(ByteOf(val, 5), val, 40, 0xff00_0000_0000)
    ensures Stands(ByteOf(val, 6), val, 48, 0xff_0000_0000_0000)
    ensures Stands(ByteOf(val, 7), val, 56, 0xff00_0000_0000_0000)
  {
    hide Stands, ByteOf;
    Byte0(val);
    Byte1(val);
    Byte2(val);
    Byte3(val);
    Byte4(val);
    Byte5(val);
    Byte6(val);
    Byte7(val);
  }

  lemma Byte0(val: reg)
    ensures Stands(ByteOf(val, 0), val, 0, 0xff)
  {
  }

  lemma Byte1(val: reg)
    ensures Stands(ByteOf(val, 1), val, 8, 0xff00)
  {
  }

  lemma Byte2(val: reg)
    ensures Stands(ByteOf(val, 2), val, 16, 0xff_0000)
  {
  }

  lemma Byte3(val: reg)
    ensures Stands(ByteOf(val, 3), val, 24, 0xff00_0000)
  {
  }

  lemma Byte4(val: reg)
    ensures Stands(ByteOf(val, 4), val, 32, 0xff_0000_0000)
  {
  }

  lemma Byte5(val: reg)
    ensures Stands(ByteOf(val, 5), val, 40, 0xff00_0000_0000)
  {
  }

  lemma Byte6(val: reg)
    ensures Stands(ByteOf(val, 6), val, 48, 0xff_0000_0000_0000)
  {
  }

  lemma Byte7(val: reg)
    ensures Stands(ByteOf(val, 7), val, 56, 0xff00_0000_0000_0000)
  {
  }

  /** The address register of an entry may be written. */
  predicate AddrFree(r: Regs, i: nat)
    requires r.Valid() && i < |r.cfg|
  {
    i < r.n && !Locked(r.cfg[i]) && !(i + 1 < |r.cfg| && Locked(r.cfg[i + 1]) && IsTor(r.cfg[i + 1]))
  }

  function CfgAfter(r: Regs, i0: nat, count: nat, val: reg, coarse: bool, i: nat): bv8
    requires r.Valid() && i < |r.cfg| && count <= 8
  {
    if i0 <= i < i0 + count && i < r.n && !Locked(r.cfg[i]) then Legalize(ByteOf(val, i - i0), coarse) else r.cfg[i]
  }

  function CfgAll(r: Regs, i0: nat, count: nat, val: reg, coarse: bool): (c: seq<bv8>)
    requires r.Valid() && count <= 8
    ensures |c| == |r.cfg| && forall i :: 0 <= i < |c| ==> c[i] == CfgAfter(r, i0, count, val, coarse, i)
  {
    seq(|r.cfg|, i requires 0 <= i < |r.cfg| => CfgAfter(r, i0, count, val, coarse, i))
  }

  /** One write to a control register. */
  datatype Write = Write(which: nat, val: reg)

  function Step(r: Regs, w: Write, rv32: bool, coarse: bool): (s: Regs)
    requires r.Valid()
    ensures s.Valid() && s.n == r.n
  {
    if r.n == 0 then r
    else if CSR_PMPADDR0 <= w.which < CSR_PMPADDR0 + MAX_PMP then
      var i := w.which - CSR_PMPADDR0;
      if AddrFree(r, i) then r.(addr := r.addr[i := w.val & 0x003f_ffff_ffff_ffff]) else r
    else if CSR_PMPCFG0 <= w.which < CSR_PMPCFG0 + MAX_PMP / 4 then
      var i0, count := (w.which - CSR_PMPCFG0) * 4, if rv32 then 4 else 8;
      r.(cfg := CfgAll(r, i0, count, w.val, coarse))
    else r
  }

  /** A configuration write arrives in each entry that it covers, as far as it is
      implemented and not locked; all other entries, and all addresses, stay. */
  lemma CfgArrives(r: Regs, c: nat, val: reg, rv32: bool, coarse: bool, i: nat)
    requires r.Valid() && c < 4 && i < MAX_PMP && r.n > 0
    ensures var s := Step(r, Write(0x3a0 + c, val), rv32, coarse);
            && s.addr == r.addr
            && s.cfg[i] ==
                if 4 * c <= i < 4 * c + (if rv32 then 4 else 8) && i < r.n && r.cfg[i] & 0x80 == 0
                then Legalize(ByteOf(val, i - 4 * c), coarse) else r.cfg[i]
  {
    hide Legalize, ByteOf;
  }

  /** An address write arrives, cut to 54 bits, unless the entry is not implemented
      or locked, or the next one is locked and has it as its lower bound. */
  lemma AddrArrives(r: Regs, k: nat, val: reg, rv32: bool, coarse: bool)
    requires r.Valid() && k < MAX_PMP && r.n > 0
    ensures var s := Step(r, Write(0x3b0 + k, val), rv32, coarse);
            && s.cfg == r.cfg
            && s.addr ==
                if k < r.n && r.cfg[k] & 0x80 == 0 && !(k < 15 && r.cfg[k + 1] & 0x98 == 0x88)
                then r.addr[k := val & 0x003f_ffff_ffff_ffff] else r.addr
  {
    NextLocks(r, k);
    hide Legalize, ByteOf, Locked, IsTor;
    LockBit(r.cfg[k]);
  }

  lemma LockBit(cfg: bv8)
    ensures Locked(cfg) <==> cfg & 0x80 != 0
  {
  }

  lemma NextLocks(r: Regs, k: nat)
    requires r.Valid() && k < MAX_PMP
    ensures k < 15 ==> (Locked(r.cfg[k + 1]) && IsTor(r.cfg[k + 1]) <==> r.cfg[k + 1] & 0x98 == 0x88)
  {
  }

  function Run(r: Regs, ws: seq<Write>, rv32: bool, coarse: bool): (s: Regs)
    requires r.Valid()
    ensures s.Valid() && s.n == r.n
    decreases |ws|
  {
    if ws == [] then r else Run(Step(r, ws[0], rv32, coarse), ws[1..], rv32, coarse)
  }

  /** One write leaves a locked entry as it is, and the lower bound of a locked TOR entry. */
  lemma LockHolds(r: Regs, w: Write, rv32: bool, coarse: bool, i: nat)
    requires r.Valid() && i < |r.cfg| && Locked(r.cfg[i])
    ensures var s := Step(r, w, rv32, coarse);
            && s.cfg[i] == r.cfg[i] && s.addr[i] == r.addr[i]
            && (IsTor(r.cfg[i]) && i > 0 ==> s.addr[i - 1] == r.addr[i - 1])
  {
    hide Locked, IsTor, Legalize, ByteOf;
  }

  /** Locks hold over every run of writes. */
  lemma {:induction false} LocksHold(r: Regs, ws: seq<Write>, rv32: bool, coarse: bool, i: nat)
    requires r.Valid() && i < |r.cfg| && Locked(r.cfg[i])
    ensures var s := Run(r, ws, rv32, coarse);
            && s.cfg[i] == r.cfg[i] && s.addr[i] == r.addr[i]
            && (IsTor(r.cfg[i]) && i > 0 ==> s.addr[i - 1] == r.addr[i - 1])
    decreases |ws|
  {
    hide Locked, IsTor, Step;
    if ws != [] {
      LockHolds(r, ws[0], rv32, coarse, i);
      LocksHold(Step(r, ws[0], rv32, coarse), ws[1..], rv32, coarse, i);
    }
  }

  /** W never without R, and at coarse granularity no NA4. */
  predicate Legal(cfg: bv8, coarse: bool) {
    (cfg & PMP_W != 0 ==> cfg & PMP_R != 0) && (coarse ==> cfg & PMP_A != PMP_NA4)
  }

  predicate AllLegal(r: Regs, coarse: bool) {
    forall i :: 0 <= i < |r.cfg| ==> Legal(r.cfg[i], coarse)
  }

  lemma StepLegal(r: Regs, w: Write, rv32: bool, coarse: bool)
    requires r.Valid() && AllLegal(r, coarse)
    ensures AllLegal(Step(r, w, rv32, coarse), coarse)
  {
    hide Locked, IsTor, Legalize, ByteOf, Legal;
    var s := Step(r, w, rv32, coarse);
    forall i | 0 <= i < |s.cfg|
      ensures Legal(s.cfg[i], coarse)
    {
      assert Legal(r.cfg[i], coarse);
      forall b: bv8
        ensures Legal(Legalize(b, coarse), coarse)
      {
        LegalizeLegal(b, coarse);
      }
    }
  }

  lemma LegalizeLegal(b: bv8, coarse: bool)
    ensures Legal(Legalize(b, coarse), coarse)
  {
    LegalizeSafe(b, coarse);
  }

  lemma LegalBits(r: Regs, coarse: bool)
    requires r.Valid()
    ensures AllLegal(r, coarse) <==>
            forall i :: 0 <= i < MAX_PMP ==>
              (r.cfg[i] & 0x02 != 0 ==> r.cfg[i] & 0x01 != 0) && (coarse ==> r.cfg[i] & 0x18 != 0x10)
  {
  }

  /** No entry that a run can reach has W set with R clear. */
  lemma {:induction false} RunLegal(r: Regs, ws: seq<Write>, rv32: bool, coarse: bool)
    requires r.Valid() && AllLegal(r, coarse)
    ensures AllLegal(Run(r, ws, rv32, coarse), coarse)
    ensures forall i :: 0 <= i < MAX_PMP ==>
              var c := Run(r, ws, rv32, coarse).cfg[i];
              (c & 0x02 != 0 ==> c & 0x01 != 0) && (coarse ==> c & 0x18 != 0x10)
    decreases |ws|
  {
    LegalBits(Run(r, ws, rv32, coarse), coarse);
    hide AllLegal, Step;
    if ws != [] {
      StepLegal(r, ws[0], rv32, coarse);
      RunLegal(Step(r, ws[0], rv32, coarse), ws[1..], rv32, coarse);
    }
  }

  /** After reset all registers are zero, which is legal. */
  lemma ResetLegal(r: Regs, coarse: bool)
    requires forall i :: 0 <= i < |r.cfg| ==> r.cfg[i] == 0
    ensures AllLegal(r, coarse)
  {
  }

  /** The registers as the hart holds them. */
  class Hart {
    const pmpcfg: array<bv8>
    const pmpaddr: array<reg>
    const n: nat
    const rv32: bool
    const coarse: bool

    ghost predicate Valid()
      reads this, pmpcfg, pmpaddr
    {
      Now().Valid() && {pmpcfg as object} !! {pmpaddr as object}
    }

    ghost function Now(): Regs
      reads this, pmpcfg, pmpaddr
    {
      Regs(pmpcfg[..], pmpaddr[..], n)
    }

    constructor (n: nat, rv32: bool, coarse: bool)
      requires n <= MAX_PMP
      ensures Valid() && AllLegal(Now(), coarse) && this.n == n && this.rv32 == rv32 && this.coarse == coarse
      ensures fresh(pmpcfg) && fresh(pmpaddr)
    {
      pmpcfg := new bv8[MAX_PMP](_ => 0);
      pmpaddr := new reg[MAX_PMP](_ => 0);
      this.n, this.rv32, this.coarse := n, rv32, coarse;
      new;
      ResetLegal(Now(), coarse);
    }

    /** A write to an address register. */
    method WriteAddr(i: nat, val: reg)
      requires Valid() && i < pmpaddr.Length && n > 0
      modifies pmpaddr
      ensures Valid() && Now() == Step(old(Now()), Write(CSR_PMPADDR0 + i, val), rv32, coarse)
    {
      hide Locked, IsTor;
      ghost var r := Now();
      var locked := Locked(pmpcfg[i]);
      var nextLocked := i + 1 < pmpcfg.Length && Locked(pmpcfg[i + 1]);
      var nextTor := i + 1 < pmpcfg.Length && IsTor(pmpcfg[i + 1]);
      if i < n && !locked && !(nextLocked && nextTor) {
        pmpaddr[i] := val & 0x003f_ffff_ffff_ffff;
        assert pmpaddr[..] == r.addr[i := val & 0x003f_ffff_ffff_ffff];
      }
    }

    /** A write to a configuration register: the loop over its bytes. */
    method WriteCfg(c: nat, val: reg)
      requires Valid() && c < MAX_PMP / 4 && n > 0
      modifies pmpcfg
      ensures Valid() && Now() == Step(old(Now()), Write(CSR_PMPCFG0 + c, val), rv32, coarse)
    {
      hide Locked, Legalize, ByteOf;
      ghost var r := Now();
      var i0, count := c * 4, if rv32 then 4 else 8;
      var i := i0;
      while i < i0 + count
        invariant i0 <= i <= i0 + count
        invariant forall j :: 0 <= j < |r.cfg| && j < i ==> pmpcfg[j] == CfgAfter(r, i0, count, val, coarse, j)
        invariant forall j :: i <= j < |r.cfg| ==> pmpcfg[j] == r.cfg[j]
      {
        if i < n && !Locked(pmpcfg[i]) {
          pmpcfg[i] := Legalize(ByteOf(val, i - i0), coarse);
        }
        i := i + 1;
      }
      assert forall j :: 0 <= j < |r.cfg| ==> pmpcfg[j] == CfgAfter(r, i0, count, val, coarse, j);
    }
  }
}
