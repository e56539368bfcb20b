/** The abstract command machine of the debug module: accesses over the debug
    module interface, idle cycles and stores by harts, in any order. */
module DebugModule {
  import opened Bytes
  import opened AbstractCode
  import opened DebugBus

  const DMI_DATA0 := 0x04
  const DMI_DMCONTROL := 0x10
  const DMI_ABSTRACTCS := 0x16
  const DMI_COMMAND := 0x17
  const DMI_ABSTRACTAUTO := 0x18
  const DMI_PROGBUF0 := 0x20
  const DMI_AUTHDATA := 0x30
  const DMI_HAWINDOWSEL := 0x14
  const DMI_HAWINDOW := 0x15
  const DMI_DMCS2 := 0x32
  const DMI_SBADDRESS3 := 0x37
  const DMI_SBCS := 0x38
  const DMI_SBADDRESS0 := 0x39
  const DMI_SBDATA0 := 0x3c
  const SECRET := 1

  const CMDERR_NONE: bv3 := 0
  const CMDERR_BUSY: bv3 := 1
  const CMDERR_NOTSUP: bv3 := 2
  const CMDERR_EXCEPTION: bv3 := 3
  const CMDERR_HALTRESUME: bv3 := 4

  // ---- words and fields

  /** field_width: how many bits it takes to tell `n` values apart. */
  method FieldWidth(n0: nat) returns (w: nat)
    requires n0 > 0
    ensures n0 <= Pow2(w) && (w > 0 ==> Pow2(w - 1) < n0)
  {
    hide Pow2;
    var n := n0 - 1;
    w := 0;
    ghost var low, p := 0, 1;
    PowStep(0);
    while n > 0
      invariant p == Pow2(w) && 0 <= low < p && n0 - 1 == n * p + low
      invariant w > 0 ==> Pow2(w - 1) <= n0 - 1
      decreases n
    {
      HalfStep(n, p);
      PowStep(w);
      low, p := low + n % 2 * p, 2 * p;
      w := w + 1;
      n := n / 2;
    }
  }

  lemma PowStep(n: nat)
    ensures Pow2(n + 1) == 2 * Pow2(n) && Pow2(0) == 1
  {
  }

  lemma HalfStep(n: nat, p: nat)
    requires n > 0
    ensures n * p == n / 2 * (2 * p) + n % 2 * p && n * p >= p && 0 <= n % 2 * p <= p
  {
    var q := n / 2;
    assert n * p == (n - 1) * p + p && (n - 1) * p >= 0;
    if n % 2 == 0 {
      assert n == 2 * q && n * p == q * (2 * p);
    } else {
      assert n == 2 * q + 1 && n * p == q * (2 * p) + p;
    }
  }

  // ---- state

  /** The hart array: harts that dmcontrol selects besides hartsel. */
  datatype HartArray = HartArray(hasel: bool, window: nat, mask: seq<bool>)

  /** What abstract commands depend on and change. */
  datatype Core = Core(
    dmactive: bool, hartsel: nat, authenticated: bool, challenge: u32,
    busy: bool, cmderr: bv3, autoData: nat, autoProgbuf: nat, command: u32,
    data: seq<byte>, progbuf: seq<byte>, code: seq<Insn>, customBase: u32,
    halted: seq<bool>, go: seq<bool>, rti: nat, completed: bool, harts: HartArray)

  datatype State = State(core: Core, sb: Sb)

  /** hartsel indexes the hart states, and the memories have their sizes. */
  predicate Fit(c: Config, s: Core) {
    && |s.halted| == Pow2(c.hartselLen) && |s.go| == FLAGS && c.hartselLen <= 10 && |s.halted| <= FLAGS
    && s.hartsel < |s.halted| && |s.harts.mask| == c.nprocs <= |s.halted|
    && |s.data| == 4 * DATACOUNT && |s.progbuf| == ProgbufBytes(c) && |s.code| == ABSTRACT_SIZE
  }

  predicate Valid(c: Config, s: State) {
    Fit(c, s.core) && SbValid(s.sb)
  }

  /** reset */
  function Reset(c: Config, s: Core, random: u32): Core {
    s.(dmactive := false, hartsel := 0, authenticated := !c.authentication, busy := false, cmderr := CMDERR_NONE,
       autoData := 0, autoProgbuf := 0, challenge := random, harts := s.harts.(hasel := false))
  }

  function Overwrite(code: seq<Insn>, p: seq<Insn>): (r: seq<Insn>)
    requires |p| <= |code|
    ensures |r| == |code|
  {
    p + code[|p|..]
  }

  /** The command is given to the selected hart. */
  function Launch(c: Config, s: Core, code: seq<Insn>): Core
    requires Fit(c, s) && |code| < ABSTRACT_SIZE
  {
    var last := if Bit(s.command, 18) then JalProgbuf(|code|) else Ebreak;
    s.(code := Overwrite(s.code, code + [last]), go := s.go[s.hartsel := true], rti := c.rti, completed := false,
       busy := true)
  }

  /** An access to a custom register takes effect at once. */
  function CustomAccess(c: Config, s: Core, number: nat, write: bool): Core
    requires Fit(c, s)
  {
    if write then s.(customBase := U32(WordAt(s.data, 0) - number))
    else s.(data := Le32(U32(number + s.customBase)) + Le32(0))
  }

  /** perform_abstract_command */
  function Perform(c: Config, s: Core): Core
    requires Fit(c, s)
  {
    if s.cmderr != CMDERR_NONE then s
    else if s.busy then s.(cmderr := CMDERR_BUSY)
    else if Field(s.command, 24, 8) != 0 then s.(cmderr := CMDERR_NOTSUP)
    else if !s.halted[s.hartsel] then s.(cmderr := CMDERR_HALTRESUME)
    else if !Bit(s.command, 17) then Launch(c, s, [])
    else
      var regno, write := Field(s.command, 0, 16), Bit(s.command, 16);
      var plan := PlanOf(c.csrAccess, regno, Field(s.command, 20, 3), write);
      CodeFits(c.csrAccess, regno, Field(s.command, 20, 3), write);
      match plan.kind
      case Unsupported => s.(code := Overwrite(s.code, plan.code), cmderr := CMDERR_NOTSUP)
      case Custom => CustomAccess(c, s, regno - 0xc000, write)
      case Go => Launch(c, s, plan.code)
  }

  // ---- operations

  /** run_test_idle */
  function RunIdle(s: Core): Core {
    var r := if s.rti > 0 then s.rti - 1 else 0;
    if r == 0 && s.busy && s.completed then s.(rti := r, busy := false) else s.(rti := r)
  }

  /** What the module does on hearing something; out of range nothing is said. */
  function Hear(s: Core, e: Event): Core {
    match e
    case Halting(id) =>
      if id >= |s.halted| || id >= |s.go| then s
      else s.(halted := s.halted[id := true], completed := s.completed || (s.hartsel == id && !s.go[id]))
    case Going(id) => if id >= |s.go| then s else s.(go := s.go[id := false])
    case Resuming(id) => if id >= |s.halted| then s else s.(halted := s.halted[id := false])
    case Excepting => if s.cmderr == CMDERR_NONE then s.(cmderr := CMDERR_EXCEPTION) else s
    case DataStore(at, b) => if at + |b| > |s.data| then s else s.(data := Patch(s.data, at, b))
    case ProgbufStore(at, b) => if at + |b| > |s.progbuf| then s else s.(progbuf := Patch(s.progbuf, at, b))
    case Cycle => RunIdle(s)
    case _ => s
  }

  function HearAll(s: Core, es: seq<Event>): Core
    decreases |es|
  {
    if es == [] then s else HearAll(Hear(s, es[0]), es[1..])
  }

  datatype Op =
    | DmiRead(address: nat, env: Env)
    | DmiWrite(address: nat, value: u32, env: Env)
    | Idle
    | HartStore(at: nat, bytes: seq<byte>)

  /** The debugger writes sbdata0. */
  predicate WritesBus(c: Config, s: State, op: Op) {
    op.DmiWrite? && op.address == DMI_SBDATA0 && !IsProgbuf(c, op.address) && s.core.authenticated
  }

  /** What the module hears by an operation. */
  function Heard(c: Config, s: State, op: Op): seq<Event>
    requires Valid(c, s)
  {
    match op
    case HartStore(at, bytes) => [Decode(c, at, bytes)]
    case Idle => [Cycle]
    case _ => if WritesBus(c, s, op) then SbStores(c, s.sb, op.value) else []
  }

  /** No assertion fails, and the harts told of are ones that the module knows. */
  predicate Possible(c: Config, s: State, op: Op)
    requires Valid(c, s)
  {
    forall e :: e in Heard(c, s, op) ==> Defined(c, e)
  }

  predicate IsData(address: nat) {
    DMI_DATA0 <= address < DMI_DATA0 + DATACOUNT
  }

  predicate IsProgbuf(c: Config, address: nat) {
    DMI_PROGBUF0 <= address < DMI_PROGBUF0 + c.progbufsize
  }

  /** The registers of the system bus. */
  predicate IsBus(address: nat) {
    DMI_SBADDRESS3 <= address <= DMI_SBDATA0 + 3
  }

  /** Registers that can be written, besides data and program buffer. */
  predicate IsRegister(address: nat) {
    || address == DMI_DMCONTROL || address == DMI_COMMAND || address == DMI_ABSTRACTCS
    || address == DMI_ABSTRACTAUTO || address == DMI_AUTHDATA || address == DMI_HAWINDOWSEL || address == DMI_HAWINDOW
    || address == DMI_DMCS2 || IsBus(address)
  }

  predicate Known(c: Config, address: nat) {
    IsData(address) || IsProgbuf(c, address) || IsRegister(address)
  }

  predicate Auto(bits: nat, i: nat) {
    bits / Pow2(i) % 2 == 1
  }

  function BusyError(s: Core): Core {
    if s.busy && s.cmderr == CMDERR_NONE then s.(cmderr := CMDERR_BUSY) else s
  }

  function PerformIf(c: Config, s: Core, auto: bool): Core
    requires Fit(c, s)
  {
    if !s.busy && auto then Perform(c, s) else s
  }

  /** The load that a read of sbdata0 makes traps. */
  predicate ReadTraps(c: Config, b: Sb, answer: Answer) {
    b.error == 0 && b.readOnData && LoadTraps(c, b, answer)
  }

  /** A read of sbdata0 may make the next load. */
  function ReadBus(c: Config, b: Sb, answer: Answer): Sb
    requires SbValid(b)
  {
    if b.error != 0 then b
    else
      var t := if b.readOnData then SbLoaded(c, b, answer) else b;
      if t.error != 0 || ReadTraps(c, b, answer) then t else Incremented(c, t)
  }

  function Read(c: Config, s: State, address: nat, env: Env): State
    requires Valid(c, s)
  {
    var k := s.core;
    if IsData(address) then s.(core := PerformIf(c, BusyError(k), Auto(k.autoData, address - DMI_DATA0)))
    else if IsProgbuf(c, address) then s.(core := PerformIf(c, k, Auto(k.autoProgbuf, address - DMI_PROGBUF0)))
    else if address == DMI_SBDATA0 then s.(sb := ReadBus(c, s.sb, env.answer))
    else s
  }

  /** A module reset: dmactive goes from 0 to 1. */
  predicate Activates(s: Core, value: u32) {
    !s.dmactive && Bit(value, 0)
  }

  /** A write that resets the module. */
  predicate Resets(s: State, op: Op) {
    op.DmiWrite? && op.address == DMI_DMCONTROL && Activates(s.core, op.value)
  }

  function Select(c: Config, value: u32): nat {
    (Field(value, 6, 10) * 0x400 + Field(value, 16, 10)) % Pow2(c.hartselLen)
  }

  predicate Chosen(s: Core, i: nat) {
    i == s.hartsel || (s.harts.hasel && i < |s.harts.mask| && s.harts.mask[i])
  }

  /** The harts that a write to dmcontrol resets are no longer halted. */
  function AfterResets(c: Config, s: Core, value: u32): seq<bool> {
    seq(|s.halted|, i requires 0 <= i < |s.halted| =>
      s.halted[i] && !(i < c.nprocs && (Bit(value, 1) || (Bit(value, 29) && Chosen(s, i)))))
  }

  function Control(c: Config, s: Core, value: u32, random: u32): Core {
    var t := (if Activates(s, value) then Reset(c, s, random) else s).(dmactive := Bit(value, 0));
    if !t.authenticated || !t.dmactive then t
    else
      var u := t.(hartsel := Select(c, value), harts := t.harts.(hasel := c.hasel && Bit(value, 26)));
      u.(halted := AfterResets(c, u, value))
  }

  /** A write to hawindow: 32 bits of the mask. */
  function Window(h: HartArray, value: u32): HartArray {
    h.(mask := seq(|h.mask|, i requires 0 <= i < |h.mask| =>
      if 32 * h.window <= i < 32 * h.window + 32 then Auto(value, i - 32 * h.window) else h.mask[i]))
  }

  /** A write to sbaddress0 may make a load. */
  function WriteAddress(c: Config, b: Sb, value: u32, answer: Answer): Sb
    requires SbValid(b)
  {
    var t := b.(address := b.address[0 := value]);
    if b.error != 0 || !b.readOnAddr then t
    else if LoadTraps(c, t, answer) then SbLoaded(c, t, answer)
    else Incremented(c, SbLoaded(c, t, answer))
  }

  function WriteSbcs(b: Sb, value: u32): Sb {
    b.(readOnAddr := Bit(value, 20), access := Field(value, 17, 3), autoincrement := Bit(value, 16),
       readOnData := Bit(value, 15), error := b.error & !(Field(value, 12, 3) as bv3))
  }

  /** The bus registers after a write to one of them. */
  function WriteBus(c: Config, b: Sb, address: nat, value: u32, env: Env): Sb
    requires SbValid(b) && IsBus(address)
  {
    if address == DMI_SBCS then WriteSbcs(b, value)
    else if address == DMI_SBADDRESS0 then WriteAddress(c, b, value, env.answer)
    else if address == DMI_SBADDRESS3 then b.(address := b.address[3 := value])
    else if address < DMI_SBDATA0 then b.(address := b.address[address - DMI_SBADDRESS0 := value])
    else if address == DMI_SBDATA0 then SbStored(c, b, value, env.accepted)
    else b.(data := b.data[address - DMI_SBDATA0 := value])
  }

  /** A write to a register other than those of the bus. */
  function WriteReg(c: Config, s: Core, address: nat, value: u32, random: u32): Core
    requires Fit(c, s)
  {
    if address == DMI_DMCONTROL then Control(c, s, value, random)
    else if address == DMI_COMMAND then Perform(c, s.(command := value))
    else if address == DMI_ABSTRACTCS then s.(cmderr := s.cmderr & !(Field(value, 8, 3) as bv3))
    else if address == DMI_ABSTRACTAUTO then s.(autoProgbuf := Field(value, 16, 16), autoData := Field(value, 0, 12))
    else if address == DMI_AUTHDATA && c.authentication then
      if value == U32(s.challenge + SECRET) then s.(authenticated := true)
      else s.(authenticated := false, challenge := random)
    else if address == DMI_HAWINDOWSEL then s.(harts := s.harts.(window := value % Pow2(c.hartselLen)))
    else if address == DMI_HAWINDOW then s.(harts := Window(s.harts, value))
    else s
  }

  /** A write to the data registers, the program buffer, or a register. */
  function WriteCore(c: Config, s: Core, address: nat, value: u32, random: u32): Core
    requires Fit(c, s)
  {
    if IsData(address) then
      var i := address - DMI_DATA0;
      if s.busy then BusyError(s) else PerformIf(c, s.(data := Patch(s.data, 4 * i, Le32(value))), Auto(s.autoData, i))
    else if IsProgbuf(c, address) then
      var i := address - DMI_PROGBUF0;
      if s.busy then s else PerformIf(c, s.(progbuf := Patch(s.progbuf, 4 * i, Le32(value))), Auto(s.autoProgbuf, i))
    else WriteReg(c, s, address, value, random)
  }

  function Write(c: Config, s: State, address: nat, value: u32, env: Env): State
    requires Valid(c, s)
  {
    if !s.core.authenticated && address != DMI_AUTHDATA && address != DMI_DMCONTROL then s
    else if IsBus(address) && !IsProgbuf(c, address) then
      State(if address == DMI_SBDATA0 then HearAll(s.core, SbStores(c, s.sb, value)) else s.core,
            WriteBus(c, s.sb, address, value, env))
    else
      var t := s.(core := WriteCore(c, s.core, address, value, env.random));
      if Resets(s, DmiWrite(address, value, env)) then t.(sb := SbReset(s.sb)) else t
  }

  function Step(c: Config, s: State, op: Op): State
    requires Valid(c, s) && Possible(c, s, op)
  {
    match op
    case DmiRead(a, env) => Read(c, s, a, env)
    case DmiWrite(a, v, env) => Write(c, s, a, v, env)
    case Idle => s.(core := RunIdle(s.core))
    case HartStore(at, b) => s.(core := Hear(s.core, Decode(c, at, b)))
  }

  // ---- safety of one step

  /** The accesses that may clear an error: a write to abstractcs, or a reset. */
  predicate Clears(s: State, op: Op) {
    (op.DmiWrite? && op.address == DMI_ABSTRACTCS) || Resets(s, op)
  }

  lemma LaunchFit(c: Config, s: Core, code: seq<Insn>)
    requires Fit(c, s) && |code| < ABSTRACT_SIZE
    ensures Fit(c, Launch(c, s, code)) && Launch(c, s, code).progbuf == s.progbuf
  {
    hide Pow2, Bit, Overwrite;
  }

  lemma CustomFit(c: Config, s: Core, number: nat, write: bool)
    requires Fit(c, s)
    ensures Fit(c, CustomAccess(c, s, number, write)) && CustomAccess(c, s, number, write).progbuf == s.progbuf
  {
    hide Pow2, Le32, WordAt;
  }

  lemma PerformFit(c: Config, s: Core)
    requires Fit(c, s)
    ensures Fit(c, Perform(c, s)) && Perform(c, s).progbuf == s.progbuf
    ensures s.busy || s.cmderr != CMDERR_NONE ==> Perform(c, s).data == s.data && Perform(c, s).busy == s.busy
    ensures s.cmderr != CMDERR_NONE ==> Perform(c, s) == s
  {
    hide PlanOf, Field, Bit, Pow2, Overwrite, Launch, CustomAccess;
    var regno, size, write := Field(s.command, 0, 16), Field(s.command, 20, 3), Bit(s.command, 16);
    CodeFits(c.csrAccess, regno, size, write);
    LaunchFit(c, s, []);
    LaunchFit(c, s, PlanOf(c.csrAccess, regno, size, write).code);
    if PlanOf(c.csrAccess, regno, size, write).kind == Custom {
      CustomPlan(c.csrAccess, regno, size, write, s.code);
      CustomFit(c, s, regno - 0xc000, write);
    }
  }

  lemma SelectInside(c: Config, value: u32)
    ensures Select(c, value) < Pow2(c.hartselLen)
  {
    hide Field;
  }

  lemma PerformIfFit(c: Config, s: Core, auto: bool)
    requires Fit(c, s)
    ensures Fit(c, PerformIf(c, s, auto))
  {
    hide Perform, Fit;
    PerformFit(c, s);
  }

  lemma ControlFit(c: Config, s: Core, value: u32, random: u32)
    requires Fit(c, s)
    ensures Fit(c, Control(c, s, value, random))
  {
    hide Pow2, Bit, Select;
    SelectInside(c, value);
  }

  lemma BusValid(c: Config, b: Sb, address: nat, value: u32, env: Env)
    requires SbValid(b) && IsBus(address)
    ensures SbValid(WriteBus(c, b, address, value, env)) && SbValid(ReadBus(c, b, env.answer))
  {
    hide Pow2, Bit, SbStored, Supported;
    FieldInside(value);
    SbStoredValid(c, b, value, env.accepted);
  }

  lemma FieldInside(value: u32)
    ensures Field(value, 8, 3) < 8 && Field(value, 12, 3) < 8 && Field(value, 17, 3) < 8
  {
    assert Pow2(3) == 8;
  }

  lemma WriteRegFit(c: Config, s: Core, address: nat, value: u32, random: u32)
    requires Fit(c, s)
    ensures Fit(c, WriteReg(c, s, address, value, random))
  {
    hide Perform, Pow2, Field, Control, Auto;
    if address == DMI_DMCONTROL {
      ControlFit(c, s, value, random);
    } else if address == DMI_COMMAND {
      PerformFit(c, s.(command := value));
    }
  }

  lemma WriteCoreFit(c: Config, s: Core, a: nat, v: u32, random: u32)
    requires Fit(c, s)
    ensures Fit(c, WriteCore(c, s, a, v, random))
  {
    hide PerformIf, Pow2, WriteReg, Auto, Le32, Patch;
    if IsData(a) {
      PatchedFit(c, s, 4 * (a - DMI_DATA0), Le32(v));
      PerformIfFit(c, s.(data := Patch(s.data, 4 * (a - DMI_DATA0), Le32(v))), Auto(s.autoData, a - DMI_DATA0));
    } else if IsProgbuf(c, a) {
      PatchedFit(c, s, 4 * (a - DMI_PROGBUF0), Le32(v));
      PerformIfFit(c, s.(progbuf := Patch(s.progbuf, 4 * (a - DMI_PROGBUF0), Le32(v))),
                     Auto(s.autoProgbuf, a - DMI_PROGBUF0));
    } else {
      WriteRegFit(c, s, a, v, random);
    }
  }

  lemma PatchedFit(c: Config, s: Core, at: nat, b: seq<byte>)
    requires Fit(c, s)
    ensures at + |b| <= |s.data| ==> Fit(c, s.(data := Patch(s.data, at, b)))
    ensures at + |b| <= |s.progbuf| ==> Fit(c, s.(progbuf := Patch(s.progbuf, at, b)))
  {
    hide Pow2, Patch;
  }

  /** Hearing leaves the shape, the code and the selection alone, starts nothing,
      and clears no error. */
  lemma HearKeepsOne(c: Config, s: Core, e: Event)
    requires Fit(c, s)
    ensures var t := Hear(s, e);
            && Fit(c, t) && t.code == s.code && t.hartsel == s.hartsel && (t.busy ==> s.busy)
            && (s.cmderr != CMDERR_NONE ==> t.cmderr == s.cmderr)
  {
    hide Pow2, Patch;
  }

  lemma {:induction false} HearKeeps(c: Config, s: Core, es: seq<Event>)
    requires Fit(c, s)
    ensures var t := HearAll(s, es);
            && Fit(c, t) && t.code == s.code && t.hartsel == s.hartsel && (t.busy ==> s.busy)
            && (s.cmderr != CMDERR_NONE ==> t.cmderr == s.cmderr)
    decreases |es|
  {
    hide Fit, Hear;
    if es != [] {
      HearKeepsOne(c, s, es[0]);
      HearKeeps(c, Hear(s, es[0]), es[1..]);
    }
  }

  /** Every step keeps the state in shape; in particular hartsel stays an index. */
  lemma StepValid(c: Config, s: State, op: Op)
    requires Valid(c, s) && Possible(c, s, op)
    ensures Valid(c, Step(c, s, op))
  {
    hide PerformIf, Fit, WriteCore, Auto, Hear, HearAll, SbStores, Decode, ReadBus, WriteBus, SbValid;
    match op
    case DmiWrite(a, v, env) =>
      WriteCoreFit(c, s.core, a, v, env.random);
      if IsBus(a) {
        BusValid(c, s.sb, a, v, env);
        HearKeeps(c, s.core, SbStores(c, s.sb, v));
      }
      ResetSbValid(s.sb);
    case DmiRead(a, env) =>
      BusyErrorFit(c, s.core);
      if IsData(a) {
        PerformIfFit(c, BusyError(s.core), Auto(s.core.autoData, a - DMI_DATA0));
      } else if IsProgbuf(c, a) {
        PerformIfFit(c, s.core, Auto(s.core.autoProgbuf, a - DMI_PROGBUF0));
      } else {
        BusValid(c, s.sb, DMI_SBDATA0, 0, env);
      }
    case HartStore(at, b) =>
      HearKeepsOne(c, s.core, Decode(c, at, b));
    case Idle =>
      HearKeepsOne(c, s.core, Cycle);
      HearOne(s.core, Cycle);
  }

  lemma ResetSbValid(b: Sb)
    requires SbValid(b)
    ensures SbValid(SbReset(b))
  {
  }

  lemma BusyErrorFit(c: Config, s: Core)
    requires Fit(c, s)
    ensures Fit(c, BusyError(s))
  {
    hide Pow2;
  }

  /** An error keeps its value and keeps new commands from starting. */
  lemma StepSticky(c: Config, s: State, op: Op)
    requires Valid(c, s) && Possible(c, s, op) && s.core.cmderr != CMDERR_NONE && !Clears(s, op)
    ensures var t := Step(c, s, op);
            t.core.cmderr == s.core.cmderr && (t.core.busy ==> s.core.busy) && t.core.code == s.core.code
  {
    hide Perform, Fit, WriteCore, Auto, Hear, HearAll, SbStores, Decode, ReadBus, WriteBus;
    match op
    case DmiWrite(a, v, env) =>
      CoreSticky(c, s.core, a, v, env.random);
      HearKeeps(c, s.core, SbStores(c, s.sb, v));
    case DmiRead(a, env) =>
      PerformFit(c, s.core);
    case HartStore(at, b) =>
      HearKeepsOne(c, s.core, Decode(c, at, b));
    case Idle =>
  }

  lemma CoreSticky(c: Config, s: Core, a: nat, v: u32, random: u32)
    requires Fit(c, s) && s.cmderr != CMDERR_NONE && a != DMI_ABSTRACTCS && (a == DMI_DMCONTROL ==> !Activates(s, v))
    ensures var t := WriteCore(c, s, a, v, random);
            t.cmderr == s.cmderr && (t.busy ==> s.busy) && t.code == s.code
  {
    hide Perform, Pow2, Field, Bit, Select, Auto, AfterResets, Le32, Patch;
    if IsData(a) {
      PerformFit(c, s.(data := Patch(s.data, 4 * (a - DMI_DATA0), Le32(v))));
    } else if IsProgbuf(c, a) {
      PerformFit(c, s.(progbuf := Patch(s.progbuf, 4 * (a - DMI_PROGBUF0), Le32(v))));
    } else {
      PerformFit(c, s.(command := v));
    }
  }

  /** Data, program buffer, code and progress of a command are the same. */
  predicate SameCommand(s: Core, t: Core) {
    && t.data == s.data && t.progbuf == s.progbuf && t.code == s.code && t.go == s.go
    && t.completed == s.completed && t.rti == s.rti
  }

  lemma BusyWrite(c: Config, s: Core, address: nat, value: u32, random: u32)
    requires Fit(c, s) && s.busy
    ensures var t := WriteCore(c, s, address, value, random);
            SameCommand(s, t) && (!(address == DMI_DMCONTROL && Activates(s, value)) ==> t.busy)
  {
    hide Perform, Pow2, Field, Bit, Select, Auto, AfterResets, Le32, Patch;
    BusyPerform(c, s.(command := value));
  }

  /** While a command is in progress, no operation has a part in the data, the
      program buffer, the code or the progress of it but by what the module hears:
      stores of harts, stores that the debugger makes over the system bus, and idle
      cycles. Short of a reset, nothing else ends the command either. */
  lemma BusyStep(c: Config, s: State, op: Op)
    requires Valid(c, s) && Possible(c, s, op) && s.core.busy
    ensures var t, u := Step(c, s, op).core, HearAll(s.core, Heard(c, s, op));
            SameCommand(u, t) && t.code == s.core.code && (!Resets(s, op) ==> t.busy == u.busy)
  {
    hide Perform, Fit, WriteCore, Decode, ReadBus, WriteBus, SbStores, Auto, HearAll, Hear, RunIdle;
    HearNone(s.core);
    HearKeeps(c, s.core, Heard(c, s, op));
    match op
    case DmiWrite(a, v, env) =>
      BusyWrite(c, s.core, a, v, env.random);
    case DmiRead(a, env) =>
    case HartStore(at, b) =>
      HearOne(s.core, Decode(c, at, b));
    case Idle =>
      HearOne(s.core, Cycle);
  }

  lemma HearRefused(s: Core)
    ensures Hear(s, Refused) == s
  {
  }

  lemma HearNone(s: Core)
    ensures HearAll(s, []) == s
  {
  }

  lemma HearOne(s: Core, e: Event)
    ensures HearAll(s, [e]) == Hear(s, e) && Hear(s, Cycle) == RunIdle(s)
  {
    assert [e][1..] == [];
  }

  /** The command register is not protected: a write to it while a command runs
      is refused as a command, and yet the register holds the new value. */
  lemma CommandOverwritten(c: Config, s: State, value: u32, env: Env)
    requires Valid(c, s) && s.core.busy && s.core.authenticated
    ensures Possible(c, s, DmiWrite(DMI_COMMAND, value, env))
    ensures var t := Step(c, s, DmiWrite(DMI_COMMAND, value, env)).core;
            && t.command == value && t.busy
            && t.cmderr == if s.core.cmderr == CMDERR_NONE then CMDERR_BUSY else s.core.cmderr
  {
    hide Perform;
    BusyPerform(c, s.core.(command := value));
  }

  lemma BusyPerform(c: Config, s: Core)
    requires Fit(c, s) && s.busy
    ensures Perform(c, s) == if s.cmderr == CMDERR_NONE then s.(cmderr := CMDERR_BUSY) else s
  {
    hide PlanOf, Field, Bit;
  }

  /** The transfer that a register access asks for, if any. */
  function CommandPlan(c: Config, command: u32): Plan {
    if Bit(command, 17) then PlanOf(c.csrAccess, Field(command, 0, 16), Field(command, 20, 3), Bit(command, 16))
    else Plan([], Go)
  }

  /** A command starts only without an error, on a halted hart, and then the code
      for it is in place: what it was told to do, then an ebreak or a jump. */
  lemma CommandStarts(c: Config, s: Core)
    requires Fit(c, s) && !s.busy && Perform(c, s).busy
    ensures s.cmderr == CMDERR_NONE && s.halted[s.hartsel] && Perform(c, s).go[s.hartsel] && !Perform(c, s).completed
    ensures var plan := CommandPlan(c, s.command);
            && plan.kind == Go && |plan.code| < ABSTRACT_SIZE
            && Perform(c, s).code[..|plan.code| + 1] ==
                plan.code + [if Bit(s.command, 18) then JalProgbuf(|plan.code|) else Ebreak]
  {
    hide PlanOf, Field, Bit, Le32, WordAt;
    CodeFits(c.csrAccess, Field(s.command, 0, 16), Field(s.command, 20, 3), Bit(s.command, 16));
  }

  // ---- commands in numbers

  /** A register access on the selected hart that code carries out: a transfer of a
      word or doubleword of a supported register, or no transfer at all. */
  predicate Accepted(c: Config, command: u32) {
    var regno, size := command % 0x1_0000, command / 0x10_0000 % 8;
    || command / 0x2_0000 % 2 == 0
    || ((size == 2 || size == 3) && ((regno <= 0xfff && c.csrAccess) || 0x1000 <= regno <= 0x103f))
  }

  predicate ToCustom(command: u32) {
    command / 0x2_0000 % 2 == 1 && command % 0x1_0000 >= 0xc000 && command % 2 == 1
  }

  /** What becomes of a command: nothing after an error; refused while busy (1), when
      it is no register access or not a supported one (2), or when the hart is not
      halted (4); done at once for a custom register; otherwise started. */
  predicate Outcome(c: Config, s: Core, r: Core)
    requires Fit(c, s)
  {
    if s.cmderr != 0 then r == s
    else if s.busy then r == s.(cmderr := 1)
    else if s.command >= 0x100_0000 then r == s.(cmderr := 2)
    else if !s.halted[s.hartsel] then r == s.(cmderr := 4)
    else if ToCustom(s.command) then
      !r.busy && r.cmderr == 0 && r == s.(data := r.data, customBase := r.customBase)
    else if Accepted(c, s.command) then
      && r.busy && r.cmderr == 0 && !r.completed && r.rti == c.rti
      && r == s.(busy := true, completed := false, rti := c.rti, go := s.go[s.hartsel := true], code := r.code)
    else r.cmderr == 2 && r == s.(cmderr := 2, code := r.code)
  }

  lemma CommandOutcome(c: Config, s: Core)
    requires Fit(c, s)
    ensures Outcome(c, s, Perform(c, s))
  {
    hide PlanOf, Overwrite, Le32, WordAt, Field, Bit, ToCustom, Accepted;
    var regno, size, write := Field(s.command, 0, 16), Field(s.command, 20, 3), Bit(s.command, 16);
    CommandFields(c, s.command);
    PlanKinds(c.csrAccess, regno, size, write);
    CodeFits(c.csrAccess, regno, size, write);
    if PlanOf(c.csrAccess, regno, size, write).kind == Custom {
      CustomPlan(c.csrAccess, regno, size, write, s.code);
    }
  }

  lemma CommandFields(c: Config, command: u32)
    ensures Field(command, 24, 8) != 0 <==> command >= 0x100_0000
    ensures var kind := PlanOf(c.csrAccess, Field(command, 0, 16), Field(command, 20, 3), Bit(command, 16)).kind;
            && (ToCustom(command) <==> Bit(command, 17) && kind == Custom)
            && (Accepted(c, command) <==> !Bit(command, 17) || kind == Go)
  {
    hide PlanOf, Pow2;
    CommandPowers();
    PlanKinds(c.csrAccess, Field(command, 0, 16), Field(command, 20, 3), Bit(command, 16));
  }

  lemma CommandPowers()
    ensures Pow2(0) == 1 && Pow2(1) == 2 && Pow2(3) == 8 && Pow2(8) == 0x100 && Pow2(16) == 0x1_0000
    ensures Pow2(17) == 0x2_0000 && Pow2(20) == 0x10_0000 && Pow2(24) == 0x100_0000
  {
    assert Pow2(4) == 16 && Pow2(12) == 0x1000;
  }

  /** Custom registers, as debuggers may test them: after the value of one is written,
      reading another gives the value shifted by their distance. */
  lemma CustomRoundTrip(c: Config, s: Core, m: nat, n: nat)
    requires Fit(c, s)
    ensures var v := WordAt(s.data, 0);
            var r := CustomAccess(c, CustomAccess(c, s, m, true), n, false);
            |r.data| == 8 && WordAt(r.data, 0) == U32(v + n - m) && WordAt(r.data, 1) == 0
  {
    hide Pow2, WordAt, Le32;
    var v := WordAt(s.data, 0);
    var w := U32(n + U32(v - m));
    assert w == U32(v + n - m);
    TwoWords(w, 0);
  }

  lemma TwoWords(x: u32, y: u32)
    ensures var d := Le32(x) + Le32(y); |d| == 8 && WordAt(d, 0) == x && WordAt(d, 1) == y
  {
    WordOfLe(x);
    WordOfLe(y);
  }

  /** The registers by their addresses, for a debugger that is let in: command,
      abstractcs, abstractauto, dmcontrol, data and program buffer. */
  lemma RegisterMap(c: Config, s: State, value: u32, env: Env, i: nat)
    requires Valid(c, s) && s.core.authenticated && !s.core.busy && c.progbufsize <= 16
    ensures var k := s.core;
            && Write(c, s, 0x17, value, env) == s.(core := Perform(c, k.(command := value)))
            && Write(c, s, 0x16, value, env) == s.(core := k.(cmderr := k.cmderr & !((value / 0x100 % 8) as bv3)))
            && Write(c, s, 0x18, value, env) ==
                s.(core := k.(autoData := value % 0x1000, autoProgbuf := value / 0x1_0000))
            && Write(c, s, 0x10, value, env).core == Control(c, k, value, env.random)
    ensures i < 2 ==>
              var k := s.core.(data := Patch(s.core.data, 4 * i, Le32(value)));
              Write(c, s, 0x04 + i, value, env) ==
                s.(core := if s.core.autoData / Pow2(i) % 2 == 1 then Perform(c, k) else k)
    ensures i < c.progbufsize ==>
              var k := s.core.(progbuf := Patch(s.core.progbuf, 4 * i, Le32(value)));
              Write(c, s, 0x20 + i, value, env) ==
                s.(core := if s.core.autoProgbuf / Pow2(i) % 2 == 1 then Perform(c, k) else k)
  {
    AutoFields(value);
    hide Perform, Control, Le32, Patch, Field, Pow2, HearAll, SbStores, WriteBus;
  }

  /** While a command is in progress an access to a data register is an error (1), if
      it is the first one; an access to the program buffer goes without notice. */
  lemma BusyAccess(c: Config, s: State, value: u32, env: Env, i: nat)
    requires Valid(c, s) && s.core.authenticated && s.core.busy && c.progbufsize <= 16
    ensures i < 2 ==>
              var t := s.(core := s.core.(cmderr := if s.core.cmderr == 0 then 1 else s.core.cmderr));
              Read(c, s, 0x04 + i, env) == t && Write(c, s, 0x04 + i, value, env) == t
    ensures i < c.progbufsize ==> Read(c, s, 0x20 + i, env) == s && Write(c, s, 0x20 + i, value, env) == s
  {
    hide Perform, Le32, Patch, Field, Pow2, HearAll, SbStores, WriteBus;
  }

  /** The addresses that can be written. */
  lemma KnownMap(c: Config, a: nat)
    requires c.progbufsize <= 16
    ensures Known(c, a) <==>
            || a == 0x04 || a == 0x05 || a == 0x10 || a == 0x14 || a == 0x15 || a == 0x16 || a == 0x17 || a == 0x18
            || 0x20 <= a < 0x20 + c.progbufsize || a == 0x30 || a == 0x32 || 0x37 <= a <= 0x3f
  {
  }

  /** What hearing each report does, for harts that the module has a state for. */
  lemma HearMap(c: Config, s: Core, id: nat)
    requires Fit(c, s) && id < |s.halted|
    ensures Hear(s, Going(id)) == s.(go := s.go[id := false])
    ensures Hear(s, Resuming(id)) == s.(halted := s.halted[id := false])
    ensures Hear(s, Excepting) == if s.cmderr == 0 then s.(cmderr := 3) else s
    ensures Hear(s, Refused) == s && Hear(s, Aborted) == s
    ensures Hear(s, Halting(id)) ==
            s.(halted := s.halted[id := true], completed := s.completed || (id == s.hartsel && !s.go[id]))
    ensures Hear(s, Cycle).rti == (if s.rti == 0 then 0 else s.rti - 1)
    ensures Hear(s, Cycle).busy == (s.busy && !(s.completed && s.rti <= 1))
  {
    hide Pow2;
  }

  /** The system bus registers by their addresses. */
  lemma BusMap(c: Config, s: State, value: u32, env: Env)
    requires Valid(c, s) && s.core.authenticated && c.progbufsize <= 0x17
    ensures var a, d := s.sb.address, s.sb.data;
            && Write(c, s, 0x37, value, env) == s.(sb := s.sb.(address := [a[0], a[1], a[2], value]))
            && Write(c, s, 0x38, value, env) == s.(sb := WriteSbcs(s.sb, value))
            && Write(c, s, 0x39, value, env) == s.(sb := WriteAddress(c, s.sb, value, env.answer))
            && Write(c, s, 0x3a, value, env) == s.(sb := s.sb.(address := [a[0], value, a[2], a[3]]))
            && Write(c, s, 0x3b, value, env) == s.(sb := s.sb.(address := [a[0], a[1], value, a[3]]))
            && Write(c, s, 0x3d, value, env) == s.(sb := s.sb.(data := [d[0], value, d[2], d[3]]))
            && Write(c, s, 0x3e, value, env) == s.(sb := s.sb.(data := [d[0], d[1], value, d[3]]))
            && Write(c, s, 0x3f, value, env) == s.(sb := s.sb.(data := [d[0], d[1], d[2], value]))
            && Write(c, s, 0x3c, value, env) ==
                State(HearAll(s.core, SbStores(c, s.sb, value)), SbStored(c, s.sb, value, env.accepted))
    ensures Read(c, s, 0x3c, env) == s.(sb := ReadBus(c, s.sb, env.answer))
  {
    hide Pow2, HearAll, SbStores, SbStored, WriteSbcs, WriteAddress, ReadBus, Fit;
    var a, d := s.sb.address, s.sb.data;
    assert a == [a[0], a[1], a[2], a[3]] && d == [d[0], d[1], d[2], d[3]];
  }

  /** The fields of sbcs, and that a pending error can only be cleared. */
  lemma SbcsMap(b: Sb, value: u32)
    ensures var t := WriteSbcs(b, value);
            && t.readOnAddr == (value / 0x10_0000 % 2 == 1) && t.access == value / 0x2_0000 % 8
            && t.autoincrement == (value / 0x1_0000 % 2 == 1) && t.readOnData == (value / 0x8000 % 2 == 1)
            && t.error == b.error & !((value / 0x1000 % 8) as bv3) && t.address == b.address && t.data == b.data
  {
    SbcsFields(value);
    hide Pow2, Field, Bit;
  }

  lemma SbcsFields(value: u32)
    ensures Bit(value, 20) == (value / 0x10_0000 % 2 == 1) && Bit(value, 16) == (value / 0x1_0000 % 2 == 1)
    ensures Bit(value, 15) == (value / 0x8000 % 2 == 1)
    ensures Field(value, 17, 3) == value / 0x2_0000 % 8 && Field(value, 12, 3) == value / 0x1000 % 8
  {
    assert Pow2(12) == 0x1000 && Pow2(15) == 0x8000;
    hide Pow2;
    CommandPowers();
  }

  /** A load that is made when sbaddress0 is written, or before sbdata0 is read again,
      and the next address; nothing of it while an error is pending. */
  lemma LoadsOnDemand(c: Config, b: Sb, value: u32, answer: Answer)
    requires SbValid(b)
    ensures var t := b.(address := b.address[0 := value]);
            var l := SbLoaded(c, t, answer);
            WriteAddress(c, b, value, answer) ==
              if b.error != 0 || !b.readOnAddr then t
              else if Supported(c, b) && answer.Trap? then t else Incremented(c, l)
    ensures var l := SbLoaded(c, b, answer);
            ReadBus(c, b, answer) ==
              if b.error != 0 then b else if !b.readOnData then Incremented(c, b)
              else if l.error != 0 then l else if Supported(c, b) && answer.Trap? then b else Incremented(c, l)
  {
    hide Pow2, Incremented;
  }

  /** dmcontrol by its bits: a rising dmactive resets the module; a debugger that is
      let in selects harts, and has them reset, after which they are not halted. */
  lemma ControlMap(c: Config, s: Core, value: u32, random: u32, i: nat)
    requires Fit(c, s)
    ensures var r := Control(c, s, value, random);
            var rising := !s.dmactive && value % 2 == 1;
            && r.dmactive == (value % 2 == 1)
            && (if rising then
                  && !r.busy && r.cmderr == 0 && r.autoData == 0 && r.autoProgbuf == 0
                  && r.authenticated == !c.authentication && r.challenge == random
                else
                  && r.busy == s.busy && r.cmderr == s.cmderr && r.autoData == s.autoData
                  && r.autoProgbuf == s.autoProgbuf && r.authenticated == s.authenticated && r.challenge == s.challenge)
            && r.data == s.data && r.progbuf == s.progbuf && r.code == s.code && r.go == s.go && r.rti == s.rti
            && r.completed == s.completed && r.command == s.command && r.customBase == s.customBase
            && r.harts.window == s.harts.window && r.harts.mask == s.harts.mask && |r.halted| == |s.halted|
    ensures var r := Control(c, s, value, random);
            if r.authenticated && r.dmactive then
              && r.hartsel == (value / 0x40 % 0x400 * 0x400 + value / 0x1_0000 % 0x400) % Pow2(c.hartselLen)
              && r.harts.hasel == (c.hasel && value / 0x400_0000 % 2 == 1)
              && (i < |s.halted| ==>
                    var chosen := i == r.hartsel || (r.harts.hasel && i < c.nprocs && r.harts.mask[i]);
                    var resets := value / 2 % 2 == 1 || (value / 0x2000_0000 % 2 == 1 && chosen);
                    r.halted[i] == (s.halted[i] && !(i < c.nprocs && resets)))
            else
              && r.hartsel == (if !s.dmactive && value % 2 == 1 then 0 else s.hartsel) && r.halted == s.halted
              && r.harts.hasel == (if !s.dmactive && value % 2 == 1 then false else s.harts.hasel)
  {
    ControlFields(value);
    hide Pow2, Field, Bit;
  }

  /** A reset of the module turns everything off on the system bus, but keeps address
      and data; no other write to dmcontrol touches it. */
  lemma ResetBus(c: Config, s: State, value: u32, env: Env)
    requires Valid(c, s) && c.progbufsize <= 16
    ensures var b, t := s.sb, Write(c, s, 0x10, value, env).sb;
            t == if !s.core.dmactive && value % 2 == 1 then Sb(false, 0, false, false, 0, b.address, b.data) else b
  {
    ControlFields(value);
    hide Pow2, Field, Bit, Control, HearAll, SbStores;
  }

  lemma ControlFields(value: u32)
    ensures Bit(value, 0) == (value % 2 == 1) && Bit(value, 1) == (value / 2 % 2 == 1)
    ensures Bit(value, 26) == (value / 0x400_0000 % 2 == 1) && Bit(value, 29) == (value / 0x2000_0000 % 2 == 1)
    ensures Field(value, 6, 10) == value / 0x40 % 0x400 && Field(value, 16, 10) == value / 0x1_0000 % 0x400
  {
    assert Pow2(5) == 32 && Pow2(10) == 0x400 && Pow2(15) == 0x8000 && Pow2(16) == 0x1_0000;
    assert Pow2(20) == 0x10_0000 && Pow2(25) == 0x200_0000 && Pow2(26) == 0x400_0000 && Pow2(29) == 0x2000_0000;
    hide Pow2;
    CommandPowers();
    PowStep(5);
  }

  /** Authentication by the challenge plus one; and the window of the hart array. */
  lemma OtherRegisters(c: Config, s: Core, value: u32, random: u32)
    requires Fit(c, s)
    ensures WriteReg(c, s, 0x30, value, random) ==
            if !c.authentication then s
            else if value == (s.challenge + 1) % 0x1_0000_0000 then s.(authenticated := true)
            else s.(authenticated := false, challenge := random)
    ensures WriteReg(c, s, 0x14, value, random) == s.(harts := s.harts.(window := value % Pow2(c.hartselLen)))
    ensures WriteReg(c, s, 0x15, value, random) == s.(harts := Window(s.harts, value))
    ensures WriteReg(c, s, 0x32, value, random) == s
  {
    hide Pow2, Fit, Window, Perform, Control;
  }

  /** A write to the window sets 32 bits of the mask. */
  lemma WindowMap(h: HartArray, value: u32, i: nat)
    requires i < |h.mask|
    ensures var t := Window(h, value);
            && t == h.(mask := t.mask) && |t.mask| == |h.mask|
            && t.mask[i] == if i / 32 == h.window then value / Pow2(i % 32) % 2 == 1 else h.mask[i]
  {
    hide Pow2;
    var base := 32 * h.window;
    if base <= i < base + 32 {
      DivUnique(i, 32, h.window, i - base);
    }
    assert i / 32 == h.window ==> base <= i < base + 32;
    assert Window(h, value).mask[i] == if base <= i < base + 32 then Auto(value, i - base) else h.mask[i];
  }

  lemma AutoFields(value: u32)
    ensures Field(value, 8, 3) == value / 0x100 % 8 && Field(value, 0, 12) == value % 0x1000
    ensures Field(value, 16, 16) == value / 0x1_0000
  {
    hide Pow2;
    CommandPowers();
    PowStep(11);
    PowStep(10);
    PowStep(9);
    PowStep(8);
  }

  // ---- safety of runs

  /** Every operation is possible when its turn comes. */
  predicate Runnable(c: Config, s: State, ops: seq<Op>)
    requires Valid(c, s)
    decreases |ops|
  {
    ops == [] || (Possible(c, s, ops[0]) && (StepValid(c, s, ops[0]); Runnable(c, Step(c, s, ops[0]), ops[1..])))
  }

  function Run(c: Config, s: State, ops: seq<Op>): State
    requires Valid(c, s) && Runnable(c, s, ops)
    decreases |ops|
  {
    if ops == [] then s else StepValid(c, s, ops[0]); Run(c, Step(c, s, ops[0]), ops[1..])
  }

  /** No operation of the run clears errors. */
  predicate NeverClears(c: Config, s: State, ops: seq<Op>)
    requires Valid(c, s) && Runnable(c, s, ops)
    decreases |ops|
  {
    ops == [] || (!Clears(s, ops[0]) && (StepValid(c, s, ops[0]); NeverClears(c, Step(c, s, ops[0]), ops[1..])))
  }

  lemma {:induction false} RunValid(c: Config, s: State, ops: seq<Op>)
    requires Valid(c, s) && Runnable(c, s, ops)
    ensures Valid(c, Run(c, s, ops)) && Run(c, s, ops).core.hartsel < |Run(c, s, ops).core.halted|
    decreases |ops|
  {
    hide Step, Possible, Pow2;
    if ops != [] {
      StepValid(c, s, ops[0]);
      RunValid(c, Step(c, s, ops[0]), ops[1..]);
    }
  }

  /** Over every interleaving: an error stays, and no command starts, until the
      error is cleared by a write to abstractcs or a reset. */
  lemma {:induction false} RunSticky(c: Config, s: State, ops: seq<Op>)
    requires Valid(c, s) && Runnable(c, s, ops) && s.core.cmderr != CMDERR_NONE && NeverClears(c, s, ops)
    ensures Run(c, s, ops).core.cmderr == s.core.cmderr && (Run(c, s, ops).core.busy ==> s.core.busy)
    ensures Run(c, s, ops).core.code == s.core.code
    decreases |ops|
  {
    hide Step, Valid, Possible, Clears;
    if ops != [] {
      StepSticky(c, s, ops[0]);
      StepValid(c, s, ops[0]);
      RunSticky(c, Step(c, s, ops[0]), ops[1..]);
    }
  }

  // ---- the module itself

  datatype DmControl = DmControl(dmactive: bool, hartsel: nat, hasel: bool)

  datatype AbstractCs = AbstractCs(busy: bool, cmderr: bv3)

  datatype AbstractAuto = AbstractAuto(data: nat, progbuf: nat)

  lemma PutNext(code: seq<Insn>, p: seq<Insn>, i: Insn)
    requires |p| < |code|
    ensures Overwrite(code, p)[|p| := i] == Overwrite(code, p + [i])
  {
  }

  lemma PutNothing(code: seq<Insn>)
    ensures Overwrite(code, []) == code
  {
  }

  class Module {
    const c: Config
    var dmcontrol: DmControl
    var authenticated: bool
    var challenge: u32
    var abstractcs: AbstractCs
    var abstractauto: AbstractAuto
    var command: u32
    var customBase: u32
    var rti: nat
    var completed: bool
    var data: seq<byte>
    var progbuf: seq<byte>
    var halted: seq<bool>
    var go: seq<bool>
    var window: nat
    var mask: seq<bool>
    var sb: Sb
    const code: array<Insn>

    ghost function Now(): Core
      reads this, code
    {
      Core(dmcontrol.dmactive, dmcontrol.hartsel, authenticated, challenge, abstractcs.busy, abstractcs.cmderr,
           abstractauto.data, abstractauto.progbuf, command,
           data, progbuf, code[..], customBase, halted, go, rti, completed,
           HartArray(dmcontrol.hasel, window, mask))
    }

    ghost function Whole(): State
      reads this, code
    {
      State(Now(), sb)
    }

    ghost predicate Ok()
      reads this, code
    {
      Fit(c, Now()) && SbValid(sb)
    }

    /** The constructor, for a number of harts; `c0` tells all but the width of hartsel. */
    constructor (c0: Config, random: u32)
      requires 0 < c0.nprocs <= FLAGS
      ensures Ok() && fresh(code) && abstractcs == AbstractCs(false, CMDERR_NONE)
      ensures c0.nprocs <= |halted| < 2 * c0.nprocs
      ensures c == c0.(hartselLen := c.hartselLen)
    {
      var width := FieldWidth(c0.nprocs);
      WidthBound(c0.nprocs, width);
      c := c0.(hartselLen := width);
      dmcontrol, authenticated, challenge := DmControl(false, 0, false), !c0.authentication, random;
      abstractcs, abstractauto, command := AbstractCs(false, CMDERR_NONE), AbstractAuto(0, 0), 0;
      customBase, this.rti, completed := 0, 0, false;
      data, progbuf := seq(8, _ => 0), seq(4 * c0.progbufsize, _ => 0) + if c0.impebreak then Le32(0x10_0073) else [];
      halted, go := seq(Pow2(width), _ => false), seq(FLAGS, _ => false);
      window, mask := 0, seq(c0.nprocs, _ => false);
      sb := Sb(false, 0, false, false, 0, [0, 0, 0, 0], [0, 0, 0, 0]);
      code := new Insn[ABSTRACT_SIZE](_ => Zero);
      new;
    }

    /** write32 to the code memory, at the next word. */
    method Put(i: nat, insn: Insn, ghost c0: seq<Insn>, ghost p: seq<Insn>) returns (next: nat)
      requires i == |p| < code.Length == |c0| && code[..] == Overwrite(c0, p)
      modifies code
      ensures next == i + 1 && code[..] == Overwrite(c0, p + [insn])
    {
      PutNext(c0, p, insn);
      code[i] := insn;
      next := i + 1;
    }

    method PutAll(i: nat, insns: seq<Insn>, ghost c0: seq<Insn>, ghost p: seq<Insn>) returns (next: nat)
      requires i == |p| && |p| + |insns| <= code.Length == |c0| && code[..] == Overwrite(c0, p)
      modifies code
      ensures next == i + |insns| && code[..] == Overwrite(c0, p + insns)
    {
      hide Overwrite;
      next := i;
      assert p + insns[..0] == p;
      for k := 0 to |insns|
        invariant next == i + k && code[..] == Overwrite(c0, p + insns[..k])
      {
        next := Put(next, insns[k], c0, p + insns[..k]);
        assert p + insns[..k] + [insns[k]] == p + insns[..k + 1];
      }
      assert insns[..|insns|] == insns;
    }

    /** The transfer of a control and status register. */
    method EmitCsr(i0: nat, regno: nat, size: nat, write: bool, ghost c0: seq<Insn>) returns (i: nat, kind: Kind)
      requires code.Length == ABSTRACT_SIZE == |c0| && i0 == |Before(regno)| && code[..] == Overwrite(c0, Before(regno))
      modifies code
      ensures var plan := CsrPlan(regno, size, write);
              && kind == plan.kind && kind != Custom && i <= ABSTRACT_SIZE
              && (kind == Go ==> i + |After(regno)| == |plan.code| && plan.code[..i] + After(regno) == plan.code)
              && (kind == Unsupported ==> i == |plan.code| && plan.code[..i] == plan.code)
              && code[..] == Overwrite(c0, plan.code[..i])
    {
      hide Overwrite;
      i := i0;
      ghost var p := Before(regno);
      if !IsFpu(regno) {
        i := Put(i, Csrw(S0, CSR_DSCRATCH0), c0, p);
        p := p + [Csrw(S0, CSR_DSCRATCH0)];
      }
      if write {
        if !SizeOk(size) {
          assert p == CsrPlan(regno, size, write).code;
          return i, Unsupported;
        }
        i := Put(i, Load(S0, size), c0, p);
        p := p + [Load(S0, size)];
        i := Put(i, Csrw(S0, regno), c0, p);
        p := p + [Csrw(S0, regno)];
      } else {
        i := Put(i, Csrr(S0, regno), c0, p);
        p := p + [Csrr(S0, regno)];
        if !SizeOk(size) {
          assert p == CsrPlan(regno, size, write).code;
          return i, Unsupported;
        }
        i := Put(i, Save(S0, size), c0, p);
        p := p + [Save(S0, size)];
      }
      if !IsFpu(regno) {
        i := Put(i, Csrr(S0, CSR_DSCRATCH0), c0, p);
        p := p + [Csrr(S0, CSR_DSCRATCH0)];
      }
      assert p + After(regno) == CsrPlan(regno, size, write).code;
      return i, Go;
    }

    method EmitGpr(regno: nat, size: nat, write: bool) returns (i: nat, kind: Kind)
      requires code.Length == ABSTRACT_SIZE && 0x1000 <= regno < 0x1020
      modifies code
      ensures var plan := GprPlan(regno, size, write);
              kind == plan.kind && i == |plan.code| && code[..] == Overwrite(old(code[..]), plan.code)
    {
      ghost var c0 := code[..];
      PutNothing(c0);
      hide Overwrite;
      if !SizeOk(size) {
        return 0, Unsupported;
      }
      var r := regno - 0x1000;
      i := Put(0, if write then Load(r, size) else Save(r, size), c0, []);
      if regno == 0x1000 + S0 && write {
        i := Put(i, Csrw(S0, CSR_DSCRATCH0), c0, [Load(S0, size)]);
      }
      return i, Go;
    }

    method EmitFpr(i0: nat, regno: nat, size: nat, write: bool, ghost c0: seq<Insn>) returns (i: nat, kind: Kind)
      requires 0x1020 <= regno < 0x1040 && code.Length == ABSTRACT_SIZE == |c0|
      requires i0 == |Before(regno)| && code[..] == Overwrite(c0, Before(regno))
      modifies code
      ensures var plan := FprPlan(regno, size, write);
              kind == plan.kind && i == |plan.code| && code[..] == Overwrite(c0, plan.code)
    {
      hide Overwrite;
      if !SizeOk(size) {
        return i0, Unsupported;
      }
      var n := regno - 0x1020;
      var insn := if write then FLoad(n, size) else FSave(n, size);
      i := Put(i0, insn, c0, Before(regno));
      i := PutAll(i, After(regno), c0, Before(regno) + [insn]);
      return i, Go;
    }

    /** The transfer part of a register access: the words before the last. */
    method EmitTransfer(regno: nat, size: nat, write: bool) returns (i: nat, kind: Kind)
      requires code.Length == ABSTRACT_SIZE
      modifies code
      ensures var plan := PlanOf(c.csrAccess, regno, size, write);
              kind == plan.kind && i == |plan.code| < ABSTRACT_SIZE && code[..] == Overwrite(old(code[..]), plan.code)
    {
      hide Overwrite, CsrPlan, GprPlan, FprPlan, Before, After;
      ghost var c0 := code[..];
      ghost var plan := PlanOf(c.csrAccess, regno, size, write);
      PutNothing(c0);
      CodeFits(c.csrAccess, regno, size, write);
      BeforeSize(regno);
      if 0x1000 <= regno < 0x1020 {
        i, kind := EmitGpr(regno, size, write);
        return;
      }
      i := PutAll(0, Before(regno), c0, []);
      assert [] + Before(regno) == Before(regno);
      if regno < 0x1000 && c.csrAccess {
        i, kind := EmitCsr(i, regno, size, write, c0);
        if kind == Go {
          i := PutAll(i, After(regno), c0, plan.code[..i]);
        }
      } else if 0x1020 <= regno < 0x1040 {
        i, kind := EmitFpr(i, regno, size, write, c0);
      } else if regno >= 0xc000 && regno % 2 == 1 {
        kind := Custom;
      } else {
        kind := Unsupported;
      }
    }

    /** The last word, and the start of the command. */
    method Start(i: nat, ghost s0: Core, ghost p: seq<Insn>)
      requires Ok() && Fit(c, s0) && i == |p| < ABSTRACT_SIZE && code[..] == Overwrite(s0.code, p)
      requires Now() == s0.(code := code[..])
      modifies this, code
      ensures Now() == Launch(c, s0, p) && sb == old(sb)
    {
      hide Bit, Overwrite, Pow2;
      var n := Put(i, if Bit(command, 18) then JalProgbuf(i) else Ebreak, s0.code, p);
      go := go[dmcontrol.hartsel := true];
      rti := c.rti;
      completed := false;
      abstractcs := abstractcs.(busy := true);
    }

    /** An access to a custom register. */
    method AccessCustom(number: nat, write: bool)
      requires Ok()
      modifies this
      ensures Now() == CustomAccess(c, old(Now()), number, write) && sb == old(sb)
    {
      hide Le32, WordAt, Pow2;
      ghost var k := code[..];
      if write {
        customBase := U32(WordAt(data, 0) - number);
      } else {
        data := Le32(U32(number + customBase)) + Le32(0);
      }
      assert code[..] == k;
    }

    /** A register access on a halted hart, with a transfer. */
    method Transfer()
      requires Ok() && abstractcs == AbstractCs(false, CMDERR_NONE) && Field(command, 24, 8) == 0
      requires halted[dmcontrol.hartsel]
      requires Bit(command, 17)
      modifies this, code
      ensures Now() == Perform(c, old(Now())) && sb == old(sb)
    {
      hide PlanOf, Field, Bit, CustomAccess, Overwrite, Pow2, Launch;
      ghost var s0 := Now();
      var regno, size, write := Field(command, 0, 16), Field(command, 20, 3), Bit(command, 16);
      var i, kind := EmitTransfer(regno, size, write);
      ghost var plan := PlanOf(c.csrAccess, regno, size, write);
      if kind == Custom {
        CustomPlan(c.csrAccess, regno, size, write, s0.code);
        AccessCustom(regno - 0xc000, write);
      } else if kind == Unsupported {
        ghost var k := code[..];
        abstractcs := abstractcs.(cmderr := CMDERR_NOTSUP);
        assert code[..] == k;
      } else {
        Start(i, s0, plan.code);
      }
    }

    /** perform_abstract_command */
    method PerformAbstractCommand()
      requires Ok()
      modifies this, code
      ensures Now() == Perform(c, old(Now())) && sb == old(sb)
      ensures Outcome(c, old(Now()), Now())
    {
      hide PlanOf, Field, Bit, CustomAccess, Overwrite, Pow2, Launch, Outcome;
      CommandOutcome(c, Now());
      ghost var k := code[..];
      if abstractcs.cmderr != CMDERR_NONE {
        return;
      }
      if abstractcs.busy {
        abstractcs := abstractcs.(cmderr := CMDERR_BUSY);
      } else if Field(command, 24, 8) != 0 {
        abstractcs := abstractcs.(cmderr := CMDERR_NOTSUP);
      } else if !halted[dmcontrol.hartsel] {
        abstractcs := abstractcs.(cmderr := CMDERR_HALTRESUME);
      } else if Bit(command, 17) {
        Transfer();
        return;
      } else {
        PutNothing(code[..]);
        Start(0, Now(), []);
        return;
      }
      assert code[..] == k;
    }

    /** sb_autoincrement, with the carries that it tries to pass on. */
    method SbAutoincrement()
      requires SbValid(sb)
      modifies this`sb
      ensures sb == Incremented(c, old(sb))
    {
      hide Pow2;
      if !sb.autoincrement || c.busBits == 0 {
        return;
      }
      var value: nat := U32(sb.address[0] + Pow2(sb.access));
      var a := sb.address;
      a := a[0 := value];
      var carry := value / TWO32;
      value := U32(a[1] + carry);
      a := a[1 := value];
      carry := value / TWO32;
      value := U32(a[2] + carry);
      a := a[2 := value];
      carry := value / TWO32;
      a := a[3 := U32(a[3] + carry)];
      assert a == sb.address[0 := a[0]];
      sb := sb.(address := a);
    }

    /** sb_read; the result tells whether it returns. */
    method SbRead(answer: Answer) returns (returned: bool)
      requires SbValid(sb)
      modifies this`sb
      ensures sb == SbLoaded(c, old(sb), answer) && SbValid(sb) && (returned <==> !LoadTraps(c, old(sb), answer))
    {
      hide Pow2;
      returned := true;
      if sb.access <= 3 && c.busBits >= 8 * Pow2(sb.access) {
        match answer {
          case Loaded(low, high) =>
            sb := sb.(data := [low, if sb.access == 3 then high else sb.data[1]] + sb.data[2..]);
          case Fault => sb := sb.(error := 2);
          case Trap => returned := false;
        }
      } else {
        sb := sb.(error := 3);
      }
    }

    /** store: the stores that reach the module over the bus. */
    method Store(at: nat, bytes: seq<byte>) returns (ok: bool)
      requires Ok() && Defined(c, Decode(c, at, bytes))
      modifies this
      ensures Now() == Hear(old(Now()), Decode(c, at, bytes)) && sb == old(sb)
      ensures ok <==> Decode(c, at, bytes) != Refused
    {
      hide Pow2, Patch, WordAt, Report;
      ghost var k := code[..];
      ok := true;
      var id := if |bytes| == 4 then WordAt(bytes, 0) else 0;
      if DATA_START <= at && at + |bytes| <= DATA_START + 4 * DATACOUNT {
        data := Patch(data, at - DATA_START, bytes);
      } else if ProgbufStart(c) <= at && at + |bytes| <= DATA_START {
        progbuf := Patch(progbuf, at - ProgbufStart(c), bytes);
      } else if at == ROM_HALTED || at == ROM_GOING || at == ROM_RESUMING {
        assert |bytes| == 4;
        assert Report(at, id) != Refused by {
          ReportKind(at, id);
        }
        StoreReport(at, id);
        return;
      } else if at == ROM_EXCEPTION {
        if abstractcs.cmderr == CMDERR_NONE {
          abstractcs := abstractcs.(cmderr := CMDERR_EXCEPTION);
        }
      } else {
        ok := false;
      }
      assert code[..] == k;
    }

    /** The words that harts store to report. */
    method StoreReport(at: nat, id: nat)
      requires Ok() && (at == ROM_HALTED || at == ROM_GOING || at == ROM_RESUMING) && Defined(c, Report(at, id))
      modifies this
      ensures Now() == Hear(old(Now()), Report(at, id)) && sb == old(sb)
    {
      hide Pow2;
      ghost var k := code[..];
      if at == ROM_HALTED {
        if !halted[id] {
          halted := halted[id := true];
        }
        if dmcontrol.hartsel == id && !go[id] {
          completed := true;
        }
      } else if at == ROM_GOING {
        go := go[id := false];
      } else {
        halted := halted[id := false];
      }
      assert code[..] == k;
    }

    /** misaligned_store: byte by byte, until a byte is refused. */
    method StoreBytes(at: nat, bytes: seq<byte>) returns (returned: bool)
      requires Ok() && forall e :: e in ByteEvents(c, at, bytes) ==> Defined(c, e)
      modifies this
      ensures Ok() && Now() == HearAll(old(Now()), ByteEvents(c, at, bytes)) && sb == old(sb)
      ensures returned <==> Refused !in ByteEvents(c, at, bytes)
    {
      hide Hear, Decode, Defined, Fit;
      returned := true;
      var i := 0;
      ghost var s0, all := Now(), ByteEvents(c, at, bytes);
      assert bytes[0..] == bytes;
      while i < |bytes|
        invariant 0 <= i <= |bytes| && Ok() && sb == old(sb)
        invariant HearAll(s0, all) == HearAll(Now(), ByteEvents(c, at + i, bytes[i..]))
        invariant Refused in all <==> Refused in ByteEvents(c, at + i, bytes[i..])
        invariant forall e :: e in ByteEvents(c, at + i, bytes[i..]) ==> Defined(c, e)
      {
        ghost var rest := bytes[i..];
        assert rest[..1] == [bytes[i]] && rest[1..] == bytes[i + 1..];
        HearKeepsOne(c, Now(), Decode(c, at + i, [bytes[i]]));
        ghost var now := Now();
        var ok := Store(at + i, [bytes[i]]);
        if !ok {
          HearOne(now, Refused);
          return false;
        }
        i := i + 1;
      }
      assert bytes[|bytes|..] == [];
    }

    /** sb_write, into the debug module or past it; the result tells whether it returns. */
    method SbWrite(ghost b: Sb, value: u32, accepted: bool) returns (returned: bool)
      requires Ok() && SbValid(b) && b.error == 0 && sb == b.(data := b.data[0 := value])
      requires forall e :: e in SbStores(c, b, value) ==> Defined(c, e)
      modifies this
      ensures returned == !StoreTraps(c, b, value, accepted)
      ensures Now() == HearAll(old(Now()), SbStores(c, b, value))
      ensures sb == if Supported(c, b) then old(sb) else old(sb).(error := 3)
    {
      hide Pow2, Hear, Decode, HearAll, ByteEvents, Defined, Fit, Payload;
      ghost var k, now := code[..], Now();
      HearNone(now);
      returned := true;
      if sb.access <= 3 && c.busBits >= 8 * Pow2(sb.access) {
        var at, bytes := Target(sb), Payload(sb);
        assert SbStores(c, b, value) == BusEvents(c, at, bytes);
        if at >= PAGE_END {
          returned := accepted;
        } else if at % |bytes| == 0 {
          HearOne(now, Decode(c, at, bytes));
          returned := Store(at, bytes);
        } else if c.misaligned {
          returned := StoreBytes(at, bytes);
        } else {
          HearOne(now, Refused);
          HearRefused(now);
          returned := false;
        }
      } else {
        sb := sb.(error := 3);
        assert code[..] == k;
      }
    }

    /** dmi_read of a data or program buffer word, or of sbdata0; other registers only report. */
    method ReadDmi(address: nat, env: Env) returns (value: Option<u32>)
      requires Ok()
      modifies this, code
      ensures Whole() == Step(c, old(Whole()), DmiRead(address, env))
      ensures IsData(address) ==>
                value == Some(if old(abstractcs.busy) then 0xffff_ffff else WordAt(old(data), address - DMI_DATA0))
      ensures IsProgbuf(c, address) ==>
                var word := WordAt(old(progbuf), address - DMI_PROGBUF0);
                value == Some(if old(abstractcs).busy then 0xffff_ffff else word)
      ensures address == DMI_SBDATA0 && !IsProgbuf(c, address) ==>
                value == if ReadTraps(c, old(sb), env.answer) then None else Some(old(sb.data[0]))
    {
      hide Perform, Pow2, WordAt, Auto, Incremented, SbLoaded, Supported;
      value := None;
      if IsData(address) {
        var i := address - DMI_DATA0;
        value := Some(if abstractcs.busy then 0xffff_ffff else WordAt(data, i));
        if abstractcs.busy && abstractcs.cmderr == CMDERR_NONE {
          abstractcs := abstractcs.(cmderr := CMDERR_BUSY);
        }
        if !abstractcs.busy && Auto(abstractauto.data, i) {
          PerformAbstractCommand();
        }
      } else if IsProgbuf(c, address) {
        var i := address - DMI_PROGBUF0;
        value := Some(if abstractcs.busy then 0xffff_ffff else WordAt(progbuf, i));
        if !abstractcs.busy && Auto(abstractauto.progbuf, i) {
          PerformAbstractCommand();
        }
      } else if address == DMI_SBDATA0 {
        var word := sb.data[0];
        var returned := ReadSbdata(env.answer);
        value := if returned then Some(word) else None;
      }
    }

    method ReadSbdata(answer: Answer) returns (returned: bool)
      requires SbValid(sb)
      modifies this`sb
      ensures sb == ReadBus(c, old(sb), answer) && (returned <==> !ReadTraps(c, old(sb), answer))
    {
      hide Incremented, SbLoaded, Supported;
      returned := true;
      if sb.error == 0 {
        if sb.readOnData {
          returned := SbRead(answer);
          if !returned {
            return;
          }
        }
        if sb.error == 0 {
          SbAutoincrement();
        }
      }
    }

    /** reset */
    method ResetModule(random: u32)
      modifies this
      ensures Now() == Reset(c, old(Now()), random) && sb == SbReset(old(sb))
    {
      ghost var k := code[..];
      dmcontrol := DmControl(false, 0, false);
      authenticated := !c.authentication;
      abstractcs := AbstractCs(false, CMDERR_NONE);
      abstractauto := AbstractAuto(0, 0);
      sb := SbReset(sb);
      challenge := random;
      assert code[..] == k;
    }

    /** The resets of harts that a write to dmcontrol asks for. */
    method ResetHarts(value: u32)
      requires Ok()
      modifies this`halted
      ensures halted == AfterResets(c, old(Now()), value)
    {
      hide Pow2, Bit;
      ghost var s0 := Now();
      for i := 0 to c.nprocs
        invariant |halted| == |s0.halted|
        invariant forall k :: 0 <= k < |halted| ==>
                    halted[k] == (s0.halted[k] && !(k < i && Bit(value, 29) && Chosen(s0, k)))
      {
        if (i == dmcontrol.hartsel || (dmcontrol.hasel && mask[i])) && Bit(value, 29) {
          halted := halted[i := false];
        }
      }
      if Bit(value, 1) {
        for i := 0 to c.nprocs
          invariant |halted| == |s0.halted|
          invariant forall k :: 0 <= k < |halted| ==>
                      halted[k] == (s0.halted[k] && !(k < i || (k < c.nprocs && Bit(value, 29) && Chosen(s0, k))))
        {
          halted := halted[i := false];
        }
      }
    }

    /** The write to dmcontrol, as far as it bears on abstract commands. */
    method WriteControl(value: u32, random: u32)
      requires Ok()
      modifies this
      ensures Now() == Control(c, old(Now()), value, random)
      ensures sb == if Activates(old(Now()), value) then SbReset(old(sb)) else old(sb)
    {
      hide Field, Pow2, Bit, AfterResets;
      ControlFit(c, Now(), value, random);
      SelectInside(c, value);
      if !dmcontrol.dmactive && Bit(value, 0) {
        ResetModule(random);
      }
      dmcontrol := dmcontrol.(dmactive := Bit(value, 0));
      if !authenticated || !dmcontrol.dmactive {
        return;
      }
      var selected := (Field(value, 6, 10) * 0x400 + Field(value, 16, 10)) % Pow2(c.hartselLen);
      dmcontrol := dmcontrol.(hasel := if c.hasel then Bit(value, 26) else false, hartsel := selected);
      ResetHarts(value);
    }

    /** dmi_write; None where it does not return because a store or load on the bus traps. */
    method WriteDmi(address: nat, value: u32, env: Env) returns (ok: Option<bool>)
      requires Ok() && Possible(c, Whole(), DmiWrite(address, value, env))
      modifies this, code
      ensures Whole() == Step(c, old(Whole()), DmiWrite(address, value, env))
      ensures ok == None <==> WriteTraps(c, old(Whole()), address, value, env)
      ensures ok == Some(true) ==>
                (old(authenticated) || address == DMI_AUTHDATA || address == DMI_DMCONTROL) && Known(c, address)
      ensures ok == Some(false) ==>
                !((old(authenticated) || address == DMI_AUTHDATA || address == DMI_DMCONTROL) && Known(c, address))
    {
      hide Perform, Pow2, Field, Le32, Auto, Patch, WriteReg, RegTraps, SbStores, Defined, WriteBus, HearAll, Activates;
      NoTraps(c, sb, address, value, env);
      if !authenticated && address != DMI_AUTHDATA && address != DMI_DMCONTROL {
        return Some(false);
      }
      if IsData(address) {
        var i := address - DMI_DATA0;
        if !abstractcs.busy {
          data := Patch(data, 4 * i, Le32(value));
        }
        if abstractcs.busy && abstractcs.cmderr == CMDERR_NONE {
          abstractcs := abstractcs.(cmderr := CMDERR_BUSY);
        }
        if !abstractcs.busy && Auto(abstractauto.data, i) {
          PerformAbstractCommand();
        }
        return Some(true);
      } else if IsProgbuf(c, address) {
        var i := address - DMI_PROGBUF0;
        if !abstractcs.busy {
          progbuf := Patch(progbuf, 4 * i, Le32(value));
        }
        if !abstractcs.busy && Auto(abstractauto.progbuf, i) {
          PerformAbstractCommand();
        }
        return Some(true);
      } else if IsBus(address) {
        var returned := WriteBusRegister(address, value, env);
        return if returned then Some(true) else None;
      } else {
        var known := WriteRegister(address, value, env.random);
        return Some(known);
      }
    }

    method WriteRegister(address: nat, value: u32, random: u32) returns (ok: bool)
      requires Ok() && !IsBus(address)
      modifies this, code
      ensures Now() == WriteReg(c, old(Now()), address, value, random)
      ensures sb == if address == DMI_DMCONTROL && Activates(old(Now()), value) then SbReset(old(sb)) else old(sb)
      ensures ok <==> IsRegister(address)
    {
      hide Perform, Pow2, Field, Control, Auto, Activates;
      ok := true;
      if address == DMI_DMCONTROL {
        WriteControl(value, random);
      } else if address == DMI_COMMAND {
        command := value;
        PerformAbstractCommand();
      } else if address == DMI_HAWINDOWSEL {
        window := value % Pow2(c.hartselLen);
      } else if address == DMI_HAWINDOW {
        WriteWindow(value);
      } else if address == DMI_ABSTRACTCS {
        FieldInside(value);
        abstractcs := abstractcs.(cmderr := abstractcs.cmderr & !(Field(value, 8, 3) as bv3));
      } else if address == DMI_ABSTRACTAUTO {
        abstractauto := AbstractAuto(Field(value, 0, 12), Field(value, 16, 16));
      } else if address == DMI_AUTHDATA {
        if c.authentication {
          if value == U32(challenge + SECRET) {
            authenticated := true;
          } else {
            authenticated, challenge := false, random;
          }
        }
      } else {
        // halt groups only have harts asked to halt
        ok := address == DMI_DMCS2;
      }
    }

    /** The write to hawindow. */
    method WriteWindow(value: u32)
      modifies this`mask
      ensures HartArray(dmcontrol.hasel, window, mask) == Window(HartArray(dmcontrol.hasel, window, old(mask)), value)
    {
      hide Auto;
      var base := window * 32;
      for i := 0 to 32
        invariant |mask| == |old(mask)|
        invariant forall k :: 0 <= k < |mask| ==>
                    mask[k] == if base <= k < base + i then Auto(value, k - base) else old(mask)[k]
      {
        if base + i < |mask| {
          mask := mask[base + i := Auto(value, i)];
        }
      }
    }

    /** The writes to the system bus registers; the result tells whether they return. */
    method WriteBusRegister(address: nat, value: u32, env: Env) returns (returned: bool)
      requires Ok() && IsBus(address)
      requires address == DMI_SBDATA0 ==> forall e :: e in SbStores(c, sb, value) ==> Defined(c, e)
      modifies this
      ensures Now() == if address == DMI_SBDATA0 then HearAll(old(Now()), SbStores(c, old(sb), value)) else old(Now())
      ensures sb == WriteBus(c, old(sb), address, value, env)
      ensures returned == !RegTraps(c, old(sb), address, value, env)
    {
      hide Pow2, Field, SbStores, Defined, HearAll, SbLoaded, Incremented, StoreTraps, Hear;
      ghost var k, now := code[..], Now();
      HearNone(now);
      returned := true;
      if address == DMI_SBCS {
        FieldInside(value);
        sb := sb.(readOnAddr := Bit(value, 20), access := Field(value, 17, 3), autoincrement := Bit(value, 16),
                  readOnData := Bit(value, 15), error := sb.error & !(Field(value, 12, 3) as bv3));
      } else if address == DMI_SBADDRESS0 {
        sb := sb.(address := sb.address[0 := value]);
        if sb.error == 0 && sb.readOnAddr {
          returned := SbRead(env.answer);
          if returned {
            SbAutoincrement();
          }
        }
      } else if address == DMI_SBADDRESS3 {
        sb := sb.(address := sb.address[3 := value]);
      } else if address < DMI_SBDATA0 {
        sb := sb.(address := sb.address[address - DMI_SBADDRESS0 := value]);
      } else if address == DMI_SBDATA0 {
        returned := WriteSbdata(value, env.accepted);
        return;
      } else {
        sb := sb.(data := sb.data[address - DMI_SBDATA0 := value]);
      }
      assert code[..] == k;
    }

    method WriteSbdata(value: u32, accepted: bool) returns (returned: bool)
      requires Ok() && forall e :: e in SbStores(c, sb, value) ==> Defined(c, e)
      modifies this
      ensures Now() == HearAll(old(Now()), SbStores(c, old(sb), value))
      ensures sb == SbStored(c, old(sb), value, accepted)
      ensures returned == !StoreTraps(c, old(sb), value, accepted)
    {
      hide Pow2, Fit, BusEvents, Defined, HearAll, Incremented, Hear, Supported;
      ghost var k, now, b := code[..], Now(), sb;
      HearNone(now);
      sb := sb.(data := sb.data[0 := value]);
      assert code[..] == k;
      returned := true;
      if sb.error == 0 {
        returned := SbWrite(b, value, accepted);
        if returned && sb.error == 0 {
          SbAutoincrement();
        }
      }
    }

    /** run_test_idle */
    method RunTestIdle()
      requires Ok()
      modifies this
      ensures Whole() == Step(c, old(Whole()), Idle)
    {
      if rti > 0 {
        rti := rti - 1;
      }
      if rti == 0 && abstractcs.busy && completed {
        abstractcs := abstractcs.(busy := false);
      }
    }
  }

  /** A load or a store that the write to a bus register makes traps. */
  predicate RegTraps(c: Config, b: Sb, address: nat, value: u32, env: Env)
    requires SbValid(b)
  {
    if address == DMI_SBADDRESS0 then b.error == 0 && b.readOnAddr && LoadTraps(c, b, env.answer)
    else address == DMI_SBDATA0 && StoreTraps(c, b, value, env.accepted)
  }

  predicate WriteTraps(c: Config, s: State, address: nat, value: u32, env: Env)
    requires Valid(c, s)
  {
    s.core.authenticated && !IsProgbuf(c, address) && RegTraps(c, s.sb, address, value, env)
  }

  lemma ReportKind(at: nat, id: nat)
    ensures var e := Report(at, id); e.Halting? || e.Going? || e.Resuming?
  {
  }

  lemma NoTraps(c: Config, b: Sb, address: nat, value: u32, env: Env)
    requires SbValid(b)
    ensures !IsBus(address) ==> !RegTraps(c, b, address, value, env)
  {
  }

  /** A custom register is reached without any code. */
  lemma CustomPlan(csrAccess: bool, regno: nat, size: nat, write: bool, code: seq<Insn>)
    requires PlanOf(csrAccess, regno, size, write).kind == Custom
    ensures regno >= 0xc000 && PlanOf(csrAccess, regno, size, write).code == [] && Overwrite(code, []) == code
  {
  }

  lemma BeforeSize(regno: nat)
    ensures |Before(regno)| <= 5 && (0x1000 <= regno < 0x1020 ==> Before(regno) == [])
    ensures regno >= 0x1040 ==> Before(regno) == []
  {
  }

  /** At most 1024 harts take at most ten bits, and less than half of the hart
      states are for harts that do not exist. */
  lemma WidthBound(n: nat, w: nat)
    requires 0 < n <= 1024 && n <= Pow2(w) && (w > 0 ==> Pow2(w - 1) < n)
    ensures w <= 10 && Pow2(w) <= 1024 && Pow2(w) < 2 * n
  {
    PowTen();
    if w > 10 {
      PowMono(10, w - 1);
    } else {
      PowMono(w, 10);
    }
  }

  lemma {:induction false} PowMono(a: nat, b: nat)
    requires a <= b
    ensures Pow2(a) <= Pow2(b)
    decreases b - a
  {
    if a < b {
      PowMono(a, b - 1);
    }
  }

  lemma PowTen()
    ensures Pow2(10) == 1024
  {
    assert Pow2(5) == 32;
  }
}
