/** The code that an abstract register access is carried out by: what the debug
    module generates, how long it gets, and what it does when a hart runs it. */
module AbstractCode {
  import opened Bytes

  const S0: nat := 8
  const CSR_FFLAGS: nat := 0x001
  const CSR_FRM: nat := 0x002
  const CSR_FCSR: nat := 0x003
  const CSR_MSTATUS: nat := 0x300
  const CSR_DSCRATCH0: nat := 0x7b2
  const CSR_DSCRATCH1: nat := 0x7b3
  const ABSTRACT_SIZE := 12

  /** Instructions by meaning; data is at the address of the data registers. */
  datatype Insn =
    | Csrw(src: nat, csr: nat)
    | Csrr(rd: nat, csr: nat)
    | Csrs(src: nat, csr: nat)
    | LuiFs(rd: nat)
    | Load(rd: nat, size: nat)
    | Save(src: nat, size: nat)
    | FLoad(rd: nat, size: nat)
    | FSave(src: nat, size: nat)
    | JalProgbuf(at: nat)
    | Ebreak
    | Zero

  predicate IsFpu(regno: nat) {
    0x1020 <= regno <= 0x103f || regno == CSR_FFLAGS || regno == CSR_FRM || regno == CSR_FCSR
  }

  datatype Kind = Go | Unsupported | Custom

  /** What is emitted for a transfer before the command is accepted or refused. */
  datatype Plan = Plan(code: seq<Insn>, kind: Kind)

  function Before(regno: nat): seq<Insn> {
    if IsFpu(regno) then
      [Csrw(S0, CSR_DSCRATCH0), Csrr(S0, CSR_MSTATUS), Csrw(S0, CSR_DSCRATCH1), LuiFs(S0), Csrs(S0, CSR_MSTATUS)]
    else []
  }

  function After(regno: nat): seq<Insn> {
    if IsFpu(regno) then [Csrr(S0, CSR_DSCRATCH1), Csrw(S0, CSR_MSTATUS), Csrr(S0, CSR_DSCRATCH0)] else []
  }

  predicate SizeOk(size: nat) {
    size == 2 || size == 3
  }

  /** The transfer of a control and status register, through s0. */
  function CsrPlan(regno: nat, size: nat, write: bool): Plan {
    var save := if IsFpu(regno) then [] else [Csrw(S0, CSR_DSCRATCH0)];
    var restore := if IsFpu(regno) then [] else [Csrr(S0, CSR_DSCRATCH0)];
    if write then
      if !SizeOk(size) then Plan(Before(regno) + save, Unsupported)
      else Plan(Before(regno) + (save + [Load(S0, size), Csrw(S0, regno)] + restore) + After(regno), Go)
    else
      if !SizeOk(size) then Plan(Before(regno) + save + [Csrr(S0, regno)], Unsupported)
      else Plan(Before(regno) + (save + [Csrr(S0, regno), Save(S0, size)] + restore) + After(regno), Go)
  }

  function GprPlan(regno: nat, size: nat, write: bool): Plan
    requires 0x1000 <= regno < 0x1020
  {
    if !SizeOk(size) then Plan([], Unsupported)
    else if !write then Plan([Save(regno - 0x1000, size)], Go)
    else if regno == 0x1000 + S0 then Plan([Load(S0, size), Csrw(S0, CSR_DSCRATCH0)], Go)
    else Plan([Load(regno - 0x1000, size)], Go)
  }

  function FprPlan(regno: nat, size: nat, write: bool): Plan
    requires 0x1020 <= regno < 0x1040
  {
    if !SizeOk(size) then Plan(Before(regno), Unsupported)
    else Plan(Before(regno) + [if write then FLoad(regno - 0x1020, size) else FSave(regno - 0x1020, size)] +
              After(regno), Go)
  }

  function PlanOf(csrAccess: bool, regno: nat, size: nat, write: bool): Plan {
    if regno < 0x1000 && csrAccess then CsrPlan(regno, size, write)
    else if 0x1000 <= regno < 0x1020 then GprPlan(regno, size, write)
    else if 0x1020 <= regno < 0x1040 then FprPlan(regno, size, write)
    else if regno >= 0xc000 && regno % 2 == 1 then Plan([], Custom)
    else Plan(Before(regno), Unsupported)
  }

  /** Which register accesses are carried out by code, which take effect at once, and
      which are refused: words and doublewords of the 32 integer and 32 floating
      point registers, and of control and status registers where that is supported;
      odd custom registers at any size. */
  lemma PlanKinds(csrAccess: bool, regno: nat, size: nat, write: bool)
    ensures PlanOf(csrAccess, regno, size, write).kind == Go <==>
            (size == 2 || size == 3) && ((regno <= 0xfff && csrAccess) || 0x1000 <= regno <= 0x103f)
    ensures PlanOf(csrAccess, regno, size, write).kind == Custom <==> regno >= 0xc000 && regno % 2 == 1
  {
  }

  /** The whole program, with the jump to the program buffer or the ebreak, fits
      the twelve words set aside for it. */
  lemma CodeFits(csrAccess: bool, regno: nat, size: nat, write: bool)
    ensures |PlanOf(csrAccess, regno, size, write).code| < ABSTRACT_SIZE
  {
  }

  // ---- what the code does

  /** The part of a hart that the code works on; `data` is the pair of data
      registers as one number. */
  datatype Mach = Mach(x: map<nat, int>, f: map<nat, int>, csr: map<nat, int>, data: nat)

  function Get(m: map<nat, int>, k: nat): int {
    if k in m then m[k] else 0
  }

  /** Register x0 stays zero. */
  function SetX(m: Mach, rd: nat, v: int): Mach {
    if rd == 0 then m else m.(x := m.x[rd := v])
  }

  function X(m: Mach, r: nat): int {
    if r == 0 then 0 else Get(m.x, r)
  }

  function LoadVal(data: nat, size: nat): int {
    if size == 3 then data else Int32(data)
  }

  function SaveVal(data: nat, v: int, size: nat): nat {
    if size == 3 then v % 0x1_0000_0000_0000_0000 else data / TWO32 * TWO32 + v % TWO32
  }

  /** Register x0 reads as zero and is not written; writing another changes that one. */
  lemma Registers(m: Mach, rd: nat, v: int, r: nat)
    ensures X(SetX(m, rd, v), r) == if r == 0 then 0 else if r == rd then v else X(m, r)
    ensures var t := SetX(m, rd, v); t.f == m.f && t.csr == m.csr && t.data == m.data
  {
  }

  /** The floating point unit is off exactly when both bits of FS are clear; with both
      set, nothing else of mstatus differs. */
  lemma FsBits(mstatus: int)
    ensures !FsOn(mstatus) <==> mstatus % 0x8000 < 0x2000
    ensures WithFs(mstatus) % 0x2000 == mstatus % 0x2000 && WithFs(mstatus) / 0x8000 == mstatus / 0x8000
    ensures WithFs(mstatus) / 0x2000 % 4 == 3
  {
    var q, low := mstatus / 0x2000, mstatus % 0x2000;
    assert mstatus == q * 0x2000 + low;
    DivUnique(mstatus, 0x8000, q / 4, q % 4 * 0x2000 + low);
    DivUnique(WithFs(mstatus), 0x8000, q / 4, 3 * 0x2000 + low);
    DivUnique(WithFs(mstatus), 0x2000, q + (3 - q % 4), low);
  }

  /** A word is stored into the low half of the data registers and loaded from there
      with its sign, a doubleword takes both; what fits comes back. */
  lemma TransferValues(data: nat, v: int)
    ensures SaveVal(data, v, 2) / 0x1_0000_0000 == data / 0x1_0000_0000
    ensures SaveVal(data, v, 2) % 0x1_0000_0000 == v % 0x1_0000_0000
    ensures SaveVal(data, v, 3) == v % 0x1_0000_0000_0000_0000 && LoadVal(data, 3) == data
    ensures -0x8000_0000 <= LoadVal(data, 2) < 0x8000_0000
    ensures LoadVal(data, 2) % 0x1_0000_0000 == data % 0x1_0000_0000
    ensures -0x8000_0000 <= v < 0x8000_0000 ==> LoadVal(SaveVal(data, v, 2), 2) == v
  {
    hide Int32;
    var saved := SaveVal(data, v, 2);
    DivUnique(saved, TWO32, data / TWO32, v % TWO32);
    SignExtended(data);
    SignExtended(saved);
    SameWord(LoadVal(saved, 2), v);
  }

  lemma SignExtended(x: int)
    ensures -0x8000_0000 <= Int32(x) < 0x8000_0000 && Int32(x) % TWO32 == x % TWO32
  {
    var w := x % TWO32;
    DivUnique(Int32(x), TWO32, if w < TWO31 then 0 else -1, w);
  }

  lemma SameWord(x: int, y: int)
    ensures x % TWO32 == y % TWO32 && -TWO31 <= x < TWO31 && -TWO31 <= y < TWO31 ==> x == y
  {
  }

  predicate FsOn(mstatus: int) {
    mstatus / 0x2000 % 4 != 0
  }

  const XLEN := 64

  /** The bitwise or of `n` low bits; the bits above are those of `a`. */
  function Or(a: int, b: int, n: nat): int
    decreases n
  {
    if n == 0 then a else 2 * Or(a / 2, b / 2, n - 1) + if a % 2 == 1 || b % 2 == 1 then 1 else 0
  }

  lemma {:induction false} OrZero(a: int, n: nat)
    ensures Or(a, 0, n) == a
    decreases n
  {
    if n > 0 {
      OrZero(a / 2, n - 1);
    }
  }

  /** Low zero bits of one operand leave those of the other. */
  lemma {:induction false} OrScaled(a: int, b: int, p: nat, k: nat, n: nat)
    requires p == Twos(k)
    ensures Or(a, b * p, n + k) == Or(a / p, b, n) * p + a % p
    decreases k
  {
    hide Or;
    if k > 0 {
      var h := Twos(k - 1);
      OrScaled(a / 2, b, h, k - 1, n);
      OrEven(a, b * h, n + k - 1);
      HalfOf(a, h);
      hide Twos;
      var t := Or(a / p, b, n);
      assert b * p == 2 * (b * h) && t * p == 2 * (t * h);
    } else {
      assert b * p == b && a / p == a && a % p == 0;
    }
  }

  lemma OrEven(a: int, b: int, n: nat)
    ensures Or(a, 2 * b, n + 1) == 2 * Or(a / 2, b, n) + a % 2
  {
  }

  function Twos(k: nat): (p: nat)
    ensures p > 0
  {
    if k == 0 then 1 else 2 * Twos(k - 1)
  }

  lemma HalfOf(a: int, h: nat)
    requires h > 0
    ensures a / (2 * h) == a / 2 / h && a % (2 * h) == 2 * (a / 2 % h) + a % 2
  {
    var q, r := a / 2 / h, a / 2 % h;
    assert a / 2 == q * h + r;
    assert a == q * (2 * h) + (2 * r + a % 2);
    DivUnique(a, 2 * h, q, 2 * r + a % 2);
  }

  lemma OrOdd(a: int, b: int, n: nat)
    ensures Or(a, 2 * b + 1, n + 1) == 2 * Or(a / 2, b, n) + 1
  {
  }

  lemma TwosThirteen()
    ensures Twos(13) == 0x2000
  {
    assert Twos(6) == 64 && Twos(12) == 0x1000;
  }

  lemma FsSum(mstatus: int)
    ensures WithFs(mstatus) == (2 * (2 * (mstatus / 0x2000 / 2 / 2) + 1) + 1) * 0x2000 + mstatus % 0x2000
  {
    var q := mstatus / 0x2000;
    var h := q / 2;
    assert q % 4 == 2 * (h % 2) + q % 2;
  }

  /** Setting the bits of 0x6000 sets FS. */
  lemma OrFs(mstatus: int)
    ensures Or(mstatus, 0x6000, XLEN) == WithFs(mstatus)
  {
    hide Or, Twos, WithFs;
    var q := mstatus / 0x2000;
    FsSum(mstatus);
    TwosThirteen();
    OrScaled(mstatus, 3, 0x2000, 13, 51);
    OrOdd(q, 1, 50);
    OrOdd(q / 2, 0, 49);
    OrZero(q / 2 / 2, 49);
  }

  /** mstatus with both FS bits set. */
  function WithFs(mstatus: int): int {
    mstatus + (3 - mstatus / 0x2000 % 4) * 0x2000
  }

  lemma FsTurnsOn(mstatus: int)
    ensures FsOn(WithFs(mstatus))
  {
    var q := mstatus / 0x2000;
    assert WithFs(mstatus) / 0x2000 == q + (3 - q % 4);
  }

  predicate NeedsFs(csr: nat) {
    csr == CSR_FFLAGS || csr == CSR_FRM || csr == CSR_FCSR
  }

  predicate Traps(m: Mach, i: Insn) {
    match i
    case Csrw(_, c) => NeedsFs(c) && !FsOn(Get(m.csr, CSR_MSTATUS))
    case Csrr(_, c) => NeedsFs(c) && !FsOn(Get(m.csr, CSR_MSTATUS))
    case FLoad(_, _) => !FsOn(Get(m.csr, CSR_MSTATUS))
    case FSave(_, _) => !FsOn(Get(m.csr, CSR_MSTATUS))
    case _ => false
  }

  function Exec(m: Mach, i: Insn): Mach {
    match i
    case Csrw(r, c) => m.(csr := m.csr[c := X(m, r)])
    case Csrr(r, c) => SetX(m, r, Get(m.csr, c))
    case Csrs(r, c) => m.(csr := m.csr[c := Or(Get(m.csr, c), X(m, r), XLEN)])
    case LuiFs(r) => SetX(m, r, 0x6000)
    case Load(r, n) => SetX(m, r, LoadVal(m.data, n))
    case Save(r, n) => m.(data := SaveVal(m.data, X(m, r), n))
    case FLoad(r, n) => m.(f := m.f[r := LoadVal(m.data, n)])
    case FSave(r, n) => m.(data := SaveVal(m.data, Get(m.f, r), n))
    case _ => m
  }

  /** Running a piece of code; None when it traps. */
  function Run(m: Mach, code: seq<Insn>): (r: Option<Mach>)
    decreases |code|
  {
    if code == [] then Some(m)
    else if Traps(m, code[0]) then None
    else Run(Exec(m, code[0]), code[1..])
  }

  lemma RunOne(m: Mach, i: Insn, code: seq<Insn>)
    requires !Traps(m, i)
    ensures Run(m, [i] + code) == Run(Exec(m, i), code)
  {
    assert ([i] + code)[1..] == code;
  }

  lemma {:induction false} RunConcat(m: Mach, a: seq<Insn>, b: seq<Insn>)
    ensures Run(m, a + b) == if Run(m, a).None? then None else Run(Run(m, a).value, b)
    decreases |a|
  {
    if a == [] {
      assert a + b == b;
    } else {
      assert (a + b)[0] == a[0] && (a + b)[1..] == a[1..] + b;
      if !Traps(m, a[0]) {
        RunConcat(Exec(m, a[0]), a[1..], b);
      }
    }
  }

  lemma RunTwo(m: Mach, i: Insn, j: Insn)
    requires !Traps(m, i) && !Traps(Exec(m, i), j)
    ensures Run(m, [i, j]) == Some(Exec(Exec(m, i), j))
  {
    RunOne(m, i, [j]);
    RunOne(Exec(m, i), j, []);
    assert [i] + [j] == [i, j] && [j] + [] == [j];
  }

  lemma RunSingle(m: Mach, i: Insn)
    requires !Traps(m, i)
    ensures Run(m, [i]) == Some(Exec(m, i))
  {
    RunOne(m, i, []);
    assert [i] + [] == [i];
  }

  /** Nothing but the scratch registers in use differs: dscratch0, and for floating
      point dscratch1 too. */
  ghost predicate SameButScratch(m: Mach, n: Mach, fpu: bool) {
    && (forall r: nat :: X(m, r) == X(n, r)) && m.f == n.f && m.data == n.data
    && forall c: nat :: c != CSR_DSCRATCH0 && (fpu ==> c != CSR_DSCRATCH1) ==> Get(m.csr, c) == Get(n.csr, c)
  }

  /** The state after the preparation for floating point, and after the clean-up. */
  function Prepared(m: Mach): Mach {
    var mst := Get(m.csr, CSR_MSTATUS);
    m.(x := m.x[S0 := 0x6000],
       csr := m.csr[CSR_DSCRATCH0 := X(m, S0)][CSR_DSCRATCH1 := mst][CSR_MSTATUS := WithFs(mst)])
  }

  function CleanedUp(m: Mach): Mach {
    m.(x := m.x[S0 := Get(m.csr, CSR_DSCRATCH0)], csr := m.csr[CSR_MSTATUS := Get(m.csr, CSR_DSCRATCH1)])
  }

  lemma BeforeRuns(m: Mach, regno: nat)
    requires IsFpu(regno)
    ensures Run(m, Before(regno)) == Some(Prepared(m))
  {
    hide Run, WithFs, Or;
    var a, b := [Csrw(S0, CSR_DSCRATCH0), Csrr(S0, CSR_MSTATUS)], [Csrw(S0, CSR_DSCRATCH1), LuiFs(S0)];
    var c := [Csrs(S0, CSR_MSTATUS)];
    assert Before(regno) == a + b + c;
    RunConcat(m, a + b, c);
    RunConcat(m, a, b);
    RunTwo(m, a[0], a[1]);
    var n := Exec(Exec(m, a[0]), a[1]);
    RunTwo(n, b[0], b[1]);
    var k := Exec(Exec(n, b[0]), b[1]);
    RunSingle(k, c[0]);
    assert k.x[S0 := 0x6000] == m.x[S0 := 0x6000] && X(k, S0) == 0x6000;
    OrFs(Get(m.csr, CSR_MSTATUS));
    assert Exec(k, c[0]) == Prepared(m);
  }

  lemma AfterRuns(m: Mach, regno: nat)
    requires IsFpu(regno)
    ensures Run(m, After(regno)) == Some(CleanedUp(m))
  {
    hide Run, WithFs;
    var a, b := [Csrr(S0, CSR_DSCRATCH1), Csrw(S0, CSR_MSTATUS)], [Csrr(S0, CSR_DSCRATCH0)];
    assert After(regno) == a + b;
    RunConcat(m, a, b);
    RunTwo(m, a[0], a[1]);
    var n := Exec(Exec(m, a[0]), a[1]);
    RunSingle(n, b[0]);
    assert n.x[S0 := Get(m.csr, CSR_DSCRATCH0)] == m.x[S0 := Get(m.csr, CSR_DSCRATCH0)];
  }

  /** Code inside the floating-point frame. */
  lemma FramedRuns(m: Mach, regno: nat, body: seq<Insn>, n: Mach)
    requires IsFpu(regno) && Run(Prepared(m), body) == Some(n)
    ensures Run(m, Before(regno) + body + After(regno)) == Some(CleanedUp(n))
  {
    hide Run, Before, After, Prepared, CleanedUp;
    RunConcat(m, Before(regno) + body, After(regno));
    RunConcat(m, Before(regno), body);
    BeforeRuns(m, regno);
    AfterRuns(n, regno);
  }

  lemma PreparedFs(m: Mach)
    ensures FsOn(Get(Prepared(m).csr, CSR_MSTATUS))
  {
    hide FsOn, WithFs;
    FsTurnsOn(Get(m.csr, CSR_MSTATUS));
  }

  /** What a register access is for. */
  function Wanted(m: Mach, regno: nat, size: nat, write: bool): Mach {
    if regno < 0x1000 then
      if write then m.(csr := m.csr[regno := LoadVal(m.data, size)])
      else m.(data := SaveVal(m.data, Get(m.csr, regno), size))
    else if regno < 0x1020 then
      if write then SetX(m, regno - 0x1000, LoadVal(m.data, size))
      else m.(data := SaveVal(m.data, X(m, regno - 0x1000), size))
    else if regno < 0x1040 then
      if write then m.(f := m.f[regno - 0x1020 := LoadVal(m.data, size)])
      else m.(data := SaveVal(m.data, Get(m.f, regno - 0x1020), size))
    else m
  }

  /** The four instructions for an ordinary control and status register. */
  lemma CsrRuns(m: Mach, regno: nat, size: nat, write: bool)
    requires regno < 0x1000 && !IsFpu(regno) && SizeOk(size) && regno != CSR_DSCRATCH0
    ensures Run(m, CsrPlan(regno, size, write).code).Some?
    ensures SameButScratch(Run(m, CsrPlan(regno, size, write).code).value, Wanted(m, regno, size, write), IsFpu(regno))
  {
    hide Run, LoadVal, SaveVal, FsOn;
    var a := if write then [Load(S0, size), Csrw(S0, regno)] else [Csrr(S0, regno), Save(S0, size)];
    var s, r := [Csrw(S0, CSR_DSCRATCH0)], [Csrr(S0, CSR_DSCRATCH0)];
    assert CsrPlan(regno, size, write).code == s + a + r;
    RunConcat(m, s + a, r);
    RunConcat(m, s, a);
    RunSingle(m, s[0]);
    var n := Exec(m, s[0]);
    RunTwo(n, a[0], a[1]);
    RunSingle(Exec(Exec(n, a[0]), a[1]), r[0]);
  }

  lemma FpuCsrRuns(m: Mach, regno: nat, size: nat, write: bool)
    requires NeedsFs(regno) && SizeOk(size)
    ensures Run(m, CsrPlan(regno, size, write).code).Some?
    ensures SameButScratch(Run(m, CsrPlan(regno, size, write).code).value, Wanted(m, regno, size, write), IsFpu(regno))
  {
    hide Run, LoadVal, SaveVal, FsOn, WithFs, Before, After;
    var a := if write then [Load(S0, size), Csrw(S0, regno)] else [Csrr(S0, regno), Save(S0, size)];
    assert CsrPlan(regno, size, write).code == Before(regno) + a + After(regno);
    var p := Prepared(m);
    PreparedFs(m);
    RunTwo(p, a[0], a[1]);
    FramedRuns(m, regno, a, Exec(Exec(p, a[0]), a[1]));
  }

  lemma FprRuns(m: Mach, regno: nat, size: nat, write: bool)
    requires 0x1020 <= regno < 0x1040 && SizeOk(size)
    ensures Run(m, FprPlan(regno, size, write).code).Some?
    ensures SameButScratch(Run(m, FprPlan(regno, size, write).code).value, Wanted(m, regno, size, write), IsFpu(regno))
  {
    hide Run, LoadVal, SaveVal, FsOn, WithFs, Before, After;
    var a := [if write then FLoad(regno - 0x1020, size) else FSave(regno - 0x1020, size)];
    PreparedFs(m);
    RunSingle(Prepared(m), a[0]);
    FramedRuns(m, regno, a, Exec(Prepared(m), a[0]));
  }

  lemma GprRuns(m: Mach, regno: nat, size: nat, write: bool)
    requires 0x1000 <= regno < 0x1020 && SizeOk(size)
    ensures Run(m, GprPlan(regno, size, write).code).Some?
    ensures SameButScratch(Run(m, GprPlan(regno, size, write).code).value, Wanted(m, regno, size, write), IsFpu(regno))
  {
    hide Run, LoadVal, SaveVal;
    var a := GprPlan(regno, size, write).code;
    if |a| == 1 {
      assert a == [a[0]];
      RunSingle(m, a[0]);
    } else {
      assert a == [a[0], a[1]];
      RunTwo(m, a[0], a[1]);
    }
  }

  /** The generated code does what the access is for, without a trap, whatever
      FS is, and leaves every other register as it was, except the scratch
      registers: s0 and mstatus, which it uses, are restored. */
  lemma CodeCorrect(m: Mach, csrAccess: bool, regno: nat, size: nat, write: bool)
    requires PlanOf(csrAccess, regno, size, write).kind == Go && regno != CSR_DSCRATCH0
    ensures Run(m, PlanOf(csrAccess, regno, size, write).code).Some?
    ensures SameButScratch(Run(m, PlanOf(csrAccess, regno, size, write).code).value, Wanted(m, regno, size, write),
                           IsFpu(regno))
  {
    hide Run, SameButScratch, Wanted;
    if regno < 0x1000 {
      if IsFpu(regno) {
        FpuCsrRuns(m, regno, size, write);
      } else {
        CsrRuns(m, regno, size, write);
      }
    } else if regno < 0x1020 {
      GprRuns(m, regno, size, write);
    } else {
      FprRuns(m, regno, size, write);
    }
  }

  /** The exception: the scratch register that the code itself uses reads as s0,
      and writing it changes s0. */
  lemma ScratchClobbered(m: Mach, size: nat)
    requires SizeOk(size)
    ensures Run(m, CsrPlan(CSR_DSCRATCH0, size, false).code).Some?
    ensures Run(m, CsrPlan(CSR_DSCRATCH0, size, false).code).value.data == SaveVal(m.data, X(m, S0), size)
    ensures Run(m, CsrPlan(CSR_DSCRATCH0, size, true).code).Some?
    ensures X(Run(m, CsrPlan(CSR_DSCRATCH0, size, true).code).value, S0) == LoadVal(m.data, size)
  {
    hide Run, LoadVal, SaveVal, FsOn;
    var s, r := [Csrw(S0, CSR_DSCRATCH0)], [Csrr(S0, CSR_DSCRATCH0)];
    var a, b := [Csrr(S0, CSR_DSCRATCH0), Save(S0, size)], [Load(S0, size), Csrw(S0, CSR_DSCRATCH0)];
    assert CsrPlan(CSR_DSCRATCH0, size, false).code == s + a + r;
    assert CsrPlan(CSR_DSCRATCH0, size, true).code == s + b + r;
    var n := Exec(m, s[0]);
    RunSingle(m, s[0]);
    RunConcat(m, s + a, r);
    RunConcat(m, s, a);
    RunTwo(n, a[0], a[1]);
    RunSingle(Exec(Exec(n, a[0]), a[1]), r[0]);
    RunConcat(m, s + b, r);
    RunConcat(m, s, b);
    RunTwo(n, b[0], b[1]);
    RunSingle(Exec(Exec(n, b[0]), b[1]), r[0]);
  }
}
