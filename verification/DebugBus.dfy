/** The debug module on the bus: what the stores that reach it mean, and the
    registers through which the debugger makes stores of its own. */
module DebugBus {
  import opened Bytes

  const DATACOUNT := 2
  const DATA_START := 0x380
  const PAGE_END := 0x1000

  const ROM_HALTED := 0x100
  const ROM_GOING := 0x104
  const ROM_RESUMING := 0x108
  const ROM_EXCEPTION := 0x10c

  const FLAGS := 1024

  // ---- words and fields

  function Pow2(n: nat): (p: nat)
    ensures p > 0
  {
    if n == 0 then 1 else 2 * Pow2(n - 1)
  }

  /** get_field: `width` bits from bit `lo`. */
  function Field(v: u32, lo: nat, width: nat): nat {
    v / Pow2(lo) % Pow2(width)
  }

  function Bit(v: u32, lo: nat): bool {
    Field(v, lo, 1) == 1
  }

  /** write32: the bytes of a word, low byte first. */
  function Le32(w: u32): (s: seq<byte>)
    ensures |s| == 4
  {
    [w % 0x100, w / 0x100 % 0x100, w / 0x1_0000 % 0x100, w / 0x100_0000]
  }

  /** read32 */
  function WordAt(s: seq<byte>, i: nat): u32
    requires 4 * i + 4 <= |s|
  {
    var b0: int, b1: int, b2: int, b3: int := s[4 * i], s[4 * i + 1], s[4 * i + 2], s[4 * i + 3];
    b0 + b1 * 0x100 + b2 * 0x1_0000 + b3 * 0x100_0000
  }

  lemma WordOfLe(w: u32)
    ensures WordAt(Le32(w), 0) == w
  {
    var hi, lo := w / 0x1_0000, w % 0x1_0000;
    assert w == hi * 0x1_0000 + lo;
    assert hi == hi / 0x100 * 0x100 + hi % 0x100;
    assert lo == lo / 0x100 * 0x100 + lo % 0x100;
    assert w / 0x100 % 0x100 == lo / 0x100;
    assert w % 0x100 == lo % 0x100;
    assert w / 0x100_0000 == hi / 0x100;
  }

  // ---- stores that reach the module

  /** How the module is set up; `misaligned` tells whether the simulator splits
      misaligned stores into bytes or lets them trap. */
  datatype Config = Config(
    progbufsize: nat, impebreak: bool, busBits: nat, authentication: bool, rti: nat, hasel: bool,
    csrAccess: bool, misaligned: bool, nprocs: nat, hartselLen: nat)

  function ProgbufBytes(c: Config): nat {
    4 * c.progbufsize + if c.impebreak then 4 else 0
  }

  /** The program buffer ends where the data registers begin. */
  function ProgbufStart(c: Config): u32 {
    U32(DATA_START - ProgbufBytes(c))
  }

  /** What a store means to the module, or that it refuses it, or that an assertion
      about its length fails; and the idle cycles, which it counts. */
  datatype Event =
    | Halting(id: nat)
    | Going(id: nat)
    | Resuming(id: nat)
    | Excepting
    | DataStore(at: nat, bytes: seq<byte>)
    | ProgbufStore(at: nat, bytes: seq<byte>)
    | Refused
    | Aborted
    | Cycle

  function Report(at: nat, id: nat): Event {
    if at == ROM_HALTED then Halting(id) else if at == ROM_GOING then Going(id) else Resuming(id)
  }

  /** store: what the bytes stored at an address mean. */
  function Decode(c: Config, at: nat, bytes: seq<byte>): Event {
    if DATA_START <= at && at + |bytes| <= DATA_START + 4 * DATACOUNT then DataStore(at - DATA_START, bytes)
    else if ProgbufStart(c) <= at && at + |bytes| <= DATA_START then ProgbufStore(at - ProgbufStart(c), bytes)
    else if at == ROM_HALTED || at == ROM_GOING || at == ROM_RESUMING then
      if |bytes| == 4 then Report(at, WordAt(bytes, 0)) else Aborted
    else if at == ROM_EXCEPTION then Excepting
    else Refused
  }

  /** The map of the module, by addresses: reports and exceptions, the program buffer
      right below the data registers, and those. */
  lemma StoreMap(c: Config, at: nat, bytes: seq<byte>)
    requires c.progbufsize <= 0x9b
    ensures var start := 0x380 - 4 * c.progbufsize - if c.impebreak then 4 else 0;
            && ProgbufStart(c) == start
            && Decode(c, at, bytes) ==
                if 0x380 <= at && at + |bytes| <= 0x388 then DataStore(at - 0x380, bytes)
                else if start <= at && at + |bytes| <= 0x380 then ProgbufStore(at - start, bytes)
                else if at == 0x10c then Excepting
                else if at != 0x100 && at != 0x104 && at != 0x108 then Refused
                else if |bytes| != 4 then Aborted
                else
                  var id := WordAt(bytes, 0);
                  if at == 0x100 then Halting(id) else if at == 0x104 then Going(id) else Resuming(id)
  {
    hide WordAt;
  }

  /** The module knows the hart that is told of, and the bytes are inside the memory they go to. */
  predicate Defined(c: Config, e: Event) {
    match e
    case Halting(id) => id < Pow2(c.hartselLen)
    case Going(id) => id < FLAGS
    case Resuming(id) => id < Pow2(c.hartselLen)
    case DataStore(at, b) => at + |b| <= 4 * DATACOUNT
    case ProgbufStore(at, b) => at + |b| <= ProgbufBytes(c)
    case Aborted => false
    case _ => true
  }

  /** Bytes never go outside the two memories. */
  lemma DecodeInside(c: Config, at: nat, bytes: seq<byte>)
    ensures var e := Decode(c, at, bytes); e.DataStore? || e.ProgbufStore? ==> Defined(c, e) && e.bytes == bytes
  {
    hide Pow2, WordAt;
  }

  // ---- the system bus registers

  datatype Sb = Sb(
    readOnAddr: bool, access: nat, autoincrement: bool, readOnData: bool, error: bv3,
    address: seq<u32>, data: seq<u32>)

  predicate SbValid(b: Sb) {
    |b.address| == 4 && |b.data| == 4 && b.access < 8
  }

  /** What the rest of the simulator contributes to an access: a random number, what
      a load on the bus returns, and whether another device takes a store. */
  datatype Answer = Loaded(low: u32, high: u32) | Fault | Trap

  datatype Env = Env(random: u32, answer: Answer, accepted: bool)

  function SbReset(b: Sb): Sb {
    b.(readOnAddr := false, access := 0, autoincrement := false, readOnData := false, error := 0)
  }

  /** The access size is one that bus mastering supports. */
  predicate Supported(c: Config, b: Sb) {
    b.access <= 3 && c.busBits >= 8 * Pow2(b.access)
  }

  /** sb_autoincrement. The sum is one of 32-bit words, so there is never a carry. */
  function Incremented(c: Config, b: Sb): Sb
    requires SbValid(b)
  {
    if !b.autoincrement || c.busBits == 0 then b
    else b.(address := b.address[0 := U32(b.address[0] + Pow2(b.access))])
  }

  /** sb_read */
  function SbLoaded(c: Config, b: Sb, answer: Answer): Sb
    requires SbValid(b)
  {
    if !Supported(c, b) then b.(error := 3)
    else
      match answer
      case Loaded(low, high) => b.(data := [low, if b.access == 3 then high else b.data[1]] + b.data[2..])
      case Fault => b.(error := 2)
      case Trap => b
  }

  predicate LoadTraps(c: Config, b: Sb, answer: Answer) {
    Supported(c, b) && answer.Trap?
  }

  function Target(b: Sb): nat
    requires SbValid(b)
  {
    b.address[1] * TWO32 + b.address[0]
  }

  /** The bytes that a store of the access size takes from the data registers. */
  function Payload(b: Sb): (r: seq<byte>)
    requires SbValid(b)
    ensures |r| > 0
  {
    if b.access == 0 then Le32(b.data[0])[..1]
    else if b.access == 1 then Le32(b.data[0])[..2]
    else if b.access == 2 then Le32(b.data[0])
    else Le32(b.data[0]) + Le32(b.data[1])
  }

  /** Address, size and bytes of a store by the debugger, in numbers: as many low bytes
      of the two data words as the access size says, where that is supported. */
  lemma StoreFields(c: Config, b: Sb, k: nat)
    requires SbValid(b)
    ensures var low: int, high: int := b.address[0], b.address[1]; Target(b) == low + 0x1_0000_0000 * high
    ensures b.access <= 3 ==> |Payload(b)| == (match b.access case 0 => 1 case 1 => 2 case 2 => 4 case _ => 8)
    ensures k < |Payload(b)| && k < 4 ==> Payload(b)[k] == Le32(b.data[0])[k]
    ensures 4 <= k < |Payload(b)| ==> Payload(b)[k] == Le32(b.data[1])[k - 4]
    ensures Supported(c, b) <==>
            || (b.access == 0 && c.busBits >= 8) || (b.access == 1 && c.busBits >= 16)
            || (b.access == 2 && c.busBits >= 32) || (b.access == 3 && c.busBits >= 64)
  {
    assert Pow2(0) == 1 && Pow2(1) == 2 && Pow2(2) == 4 && Pow2(3) == 8;
    hide Le32;
  }

  /** The low word of the address moves by the access size, if that is asked for. */
  lemma NextAddress(c: Config, b: Sb)
    requires SbValid(b) && b.access <= 3
    ensures var t := Incremented(c, b);
            && t.address[1..] == b.address[1..] && t.data == b.data && t.access == b.access && t.error == b.error
            && var low: int := b.address[0];
               t.address[0] ==
                 if b.autoincrement && c.busBits > 0 then
                   (low + match b.access case 0 => 1 case 1 => 2 case 2 => 4 case _ => 8) % 0x1_0000_0000
                 else low
  {
    assert Pow2(0) == 1 && Pow2(1) == 2 && Pow2(2) == 4 && Pow2(3) == 8;
  }

  /** What a load leaves behind. */
  lemma LoadResult(c: Config, b: Sb, low: u32, high: u32)
    requires SbValid(b) && Supported(c, b)
    ensures var t := SbLoaded(c, b, Loaded(low, high));
            && t.data[0] == low && t.data[1] == (if b.access == 3 then high else b.data[1])
            && t.data[2..] == b.data[2..]
            && t == b.(data := t.data)
    ensures SbLoaded(c, b, Fault) == b.(error := 2) && SbLoaded(c, b, Trap) == b
  {
  }

  /** A size that is not supported is error 3, for loads and for stores; a store is made
      only without an error, and then the address moves on unless it traps. */
  lemma StoreResult(c: Config, b: Sb, value: u32, accepted: bool, answer: Answer)
    requires SbValid(b)
    ensures !Supported(c, b) ==> SbLoaded(c, b, answer) == b.(error := 3)
    ensures var t := b.(data := [value, b.data[1], b.data[2], b.data[3]]);
            SbStored(c, b, value, accepted) ==
              if b.error != 0 then t else if !Supported(c, b) then t.(error := 3)
              else if StoreTraps(c, b, value, accepted) then t else Incremented(c, t)
    ensures b.error != 0 || !Supported(c, b) ==> SbStores(c, b, value) == [] && !StoreTraps(c, b, value, accepted)
    ensures b.error == 0 && Supported(c, b) && Target(b) >= 0x1000 ==>
              SbStores(c, b, value) == [] && (StoreTraps(c, b, value, accepted) <==> !accepted)
  {
    hide Supported, Incremented, Payload, Target;
    assert b.data[0 := value] == [value, b.data[1], b.data[2], b.data[3]];
  }

  /** misaligned_store: one byte after another, until one is refused. */
  function ByteEvents(c: Config, at: nat, bytes: seq<byte>): seq<Event>
    decreases |bytes|
  {
    if bytes == [] then []
    else
      var e := Decode(c, at, bytes[..1]);
      if e == Refused then [Refused] else [e] + ByteEvents(c, at + 1, bytes[1..])
  }

  /** The stores that reach the module when the debugger stores on the bus. It has
      the first page; stores elsewhere are for other devices, or refused. */
  function BusEvents(c: Config, at: nat, bytes: seq<byte>): seq<Event>
    requires bytes != []
  {
    if at >= PAGE_END then []
    else if at % |bytes| == 0 then [Decode(c, at, bytes)]
    else if c.misaligned then ByteEvents(c, at, bytes)
    else [Refused]
  }

  /** A word that is written to sbdata0 goes out on the bus. */
  predicate Masters(c: Config, b: Sb) {
    b.error == 0 && Supported(c, b)
  }

  function SbStores(c: Config, b: Sb, value: u32): seq<Event>
    requires SbValid(b)
  {
    if Masters(c, b) then BusEvents(c, Target(b), Payload(b.(data := b.data[0 := value]))) else []
  }

  predicate StoreTraps(c: Config, b: Sb, value: u32, accepted: bool)
    requires SbValid(b)
  {
    Masters(c, b) && if Target(b) >= PAGE_END then !accepted else Refused in SbStores(c, b, value)
  }

  /** The bus registers after a word was written to sbdata0. */
  function SbStored(c: Config, b: Sb, value: u32, accepted: bool): Sb
    requires SbValid(b)
  {
    var t := b.(data := b.data[0 := value]);
    if b.error != 0 then t
    else if !Supported(c, b) then t.(error := 3)
    else if StoreTraps(c, b, value, accepted) then t
    else Incremented(c, t)
  }

  lemma SbStoredValid(c: Config, b: Sb, value: u32, accepted: bool)
    requires SbValid(b)
    ensures SbValid(SbStored(c, b, value, accepted))
  {
    hide Pow2, StoreTraps, Supported;
  }

  /** A store is never taken for an idle cycle. */
  lemma {:induction false} BytesNoCycle(c: Config, at: nat, bytes: seq<byte>)
    ensures Cycle !in ByteEvents(c, at, bytes)
    decreases |bytes|
  {
    hide WordAt, ProgbufStart;
    if bytes != [] {
      BytesNoCycle(c, at + 1, bytes[1..]);
    }
  }

  lemma NoCycle(c: Config, at: nat, bytes: seq<byte>)
    ensures Decode(c, at, bytes) != Cycle && (bytes != [] ==> Cycle !in BusEvents(c, at, bytes))
  {
    hide WordAt, ProgbufStart, ByteEvents;
    BytesNoCycle(c, at, bytes);
  }

  /** Without bus mastering, or with the address set outside the debug module, the
      debugger makes no stores to it. */
  lemma NoStores(c: Config, b: Sb, value: u32)
    requires SbValid(b) && (c.busBits < 8 || b.access > 3 || b.error != 0 || Target(b) >= PAGE_END)
    ensures SbStores(c, b, value) == []
  {
    assert Pow2(b.access) >= 1;
  }
}
