/** The cache simulator: a set-associative and a fully associative cache, both
    against one account of which lines are resident, which are dirty, and what
    was stored and written back when. */
module CacheSim {
  import opened Bytes

  const VALID: int := 0x8000_0000_0000_0000
  const DIRTY: int := 0x4000_0000_0000_0000

  type u64 = x: int | 0 <= x < 0x1_0000_0000_0000_0000

  // ---- tags: a line number below bit 62, and two flags

  predicate IsValid(t: u64) {
    t >= VALID
  }

  predicate HasDirty(t: u64) {
    t % VALID >= DIRTY
  }

  /** `t & ~DIRTY` */
  function Undirty(t: u64): u64 {
    if HasDirty(t) then t - DIRTY else t
  }

  /** `t | DIRTY` */
  function SetDirty(t: u64): u64 {
    if HasDirty(t) then t else t + DIRTY
  }

  /** `t & ~(VALID | DIRTY)` */
  function Line(t: u64): (l: nat)
    ensures l < DIRTY
  {
    t % DIRTY
  }

  /** `line | VALID`; a line number has its two top bits clear. */
  function MakeTag(l: nat): u64
    requires l < DIRTY
  {
    l + VALID
  }

  lemma TagFacts(t: u64, l: nat)
    requires l < DIRTY
    ensures MakeTag(l) == Undirty(t) <==> IsValid(t) && Line(t) == l
    ensures IsValid(SetDirty(t)) == IsValid(t) && HasDirty(SetDirty(t)) && Line(SetDirty(t)) == Line(t)
    ensures IsValid(MakeTag(l)) && !HasDirty(MakeTag(l)) && Line(MakeTag(l)) == l
  {
  }

  // ---- history

  datatype Event = Load(line: nat) | Store(line: nat) | WriteBack(line: nat)

  /** The last store to the line is later than its last write-back. */
  predicate Pending(log: seq<Event>, l: nat) {
    if log == [] then false else
    match log[|log| - 1]
    case Store(x) => x == l || Pending(log[..|log| - 1], l)
    case WriteBack(x) => x != l && Pending(log[..|log| - 1], l)
    case Load(_) => Pending(log[..|log| - 1], l)
  }

  function Stores(log: seq<Event>): nat {
    if log == [] then 0 else Stores(log[..|log| - 1]) + if log[|log| - 1].Store? then 1 else 0
  }

  function WriteBacks(log: seq<Event>): nat {
    if log == [] then 0 else WriteBacks(log[..|log| - 1]) + if log[|log| - 1].WriteBack? then 1 else 0
  }

  lemma Append(log: seq<Event>, e: Event, l: nat)
    ensures Pending(log + [e], l) == match e
                                     case Store(x) => x == l || Pending(log, l)
                                     case WriteBack(x) => x != l && Pending(log, l)
                                     case Load(_) => Pending(log, l)
    ensures Stores(log + [e]) == Stores(log) + if e.Store? then 1 else 0
    ensures WriteBacks(log + [e]) == WriteBacks(log) + if e.WriteBack? then 1 else 0
  {
    assert (log + [e])[..|log|] == log;
  }

  /** Resident lines, each with its dirty flag. */
  type Lines = map<nat, bool>

  function DirtyLines(lines: Lines): set<nat> {
    set l | l in lines && lines[l]
  }

  /** A line is dirty exactly when its last store is later than its last write-back. */
  ghost predicate Told(lines: Lines, log: seq<Event>) {
    forall l: nat :: (l in lines && lines[l]) <==> Pending(log, l)
  }

  /** Every write-back and every dirty line is owed to a store of its own. */
  predicate Paid(lines: Lines, log: seq<Event>) {
    WriteBacks(log) + |DirtyLines(lines)| <= Stores(log)
  }

  function EventOf(l: nat, store: bool): Event {
    if store then Store(l) else Load(l)
  }

  /** An access to a resident line. */
  function Touch(lines: Lines, l: nat, store: bool): Lines
    requires l in lines
  {
    if store then lines[l := true] else lines
  }

  /** An access to a line that is not, with the line that makes way for it. */
  function Replace(lines: Lines, victim: Option<nat>, l: nat, store: bool): Lines {
    (if victim.Some? then lines - {victim.value} else lines)[l := store]
  }

  function Evicted(lines: Lines, victim: Option<nat>): seq<Event>
    requires victim.Some? ==> victim.value in lines
  {
    if victim.Some? && lines[victim.value] then [WriteBack(victim.value)] else []
  }

  lemma TouchKeeps(lines: Lines, log: seq<Event>, l: nat, store: bool)
    requires Told(lines, log) && Paid(lines, log) && l in lines
    ensures Told(Touch(lines, l, store), log + [EventOf(l, store)])
    ensures Paid(Touch(lines, l, store), log + [EventOf(l, store)])
  {
    hide Pending, Stores, WriteBacks;
    var e := EventOf(l, store);
    forall x: nat
      ensures (x in Touch(lines, l, store) && Touch(lines, l, store)[x]) <==> Pending(log + [e], x)
    {
      Append(log, e, x);
    }
    Append(log, e, l);
    if store {
      assert DirtyLines(lines[l := true]) == DirtyLines(lines) + {l};
    }
  }

  /** Removing a victim, with its write-back if it is dirty. */
  lemma EvictKeeps(lines: Lines, log: seq<Event>, v: nat)
    requires Told(lines, log) && Paid(lines, log) && v in lines
    ensures Told(lines - {v}, log + Evicted(lines, Some(v))) && Paid(lines - {v}, log + Evicted(lines, Some(v)))
  {
    hide Pending, Stores, WriteBacks;
    if lines[v] {
      var e := WriteBack(v);
      forall x: nat
        ensures (x in lines - {v} && (lines - {v})[x]) <==> Pending(log + [e], x)
      {
        Append(log, e, x);
      }
      Append(log, e, v);
      assert DirtyLines(lines) == DirtyLines(lines - {v}) + {v};
    } else {
      assert log + Evicted(lines, Some(v)) == log;
      assert DirtyLines(lines) == DirtyLines(lines - {v});
    }
  }

  /** Bringing a line in. */
  lemma FillKeeps(lines: Lines, log: seq<Event>, l: nat, store: bool)
    requires Told(lines, log) && Paid(lines, log) && l !in lines
    ensures Told(lines[l := store], log + [EventOf(l, store)]) && Paid(lines[l := store], log + [EventOf(l, store)])
  {
    hide Pending, Stores, WriteBacks;
    var e := EventOf(l, store);
    forall x: nat
      ensures (x in lines[l := store] && lines[l := store][x]) <==> Pending(log + [e], x)
    {
      Append(log, e, x);
    }
    Append(log, e, l);
    assert DirtyLines(lines[l := store]) == DirtyLines(lines) + if store then {l} else {};
  }

  lemma ReplaceKeeps(lines: Lines, log: seq<Event>, victim: Option<nat>, l: nat, store: bool)
    requires Told(lines, log) && Paid(lines, log) && l !in lines && (victim.Some? ==> victim.value in lines)
    ensures var log' := log + Evicted(lines, victim) + [EventOf(l, store)];
            Told(Replace(lines, victim, l, store), log') && Paid(Replace(lines, victim, l, store), log')
  {
    hide Told, Paid;
    if victim.Some? {
      EvictKeeps(lines, log, victim.value);
      FillKeeps(lines - {victim.value}, log + Evicted(lines, victim), l, store);
    } else {
      assert log + Evicted(lines, victim) == log;
      FillKeeps(lines, log, l, store);
    }
  }

  // ---- the set-associative cache

  predicate PowerOfTwo(n: nat) {
    n == 1 || (n > 1 && n % 2 == 0 && PowerOfTwo(n / 2))
  }

  /** An access passed on to the next level. */
  datatype Request = Request(addr: nat, bytes: nat, store: bool)

  /** What a miss asks of the next level: the write-back of a dirty victim at the
      address of the line it held, then the line itself. */
  function Requests(lines: Lines, victim: Option<nat>, l: nat, linesz: nat): seq<Request>
    requires victim.Some? ==> victim.value in lines
  {
    (if victim.Some? && lines[victim.value] then [Request(victim.value * linesz, linesz, true)] else []) +
        [Request(l * linesz, linesz, false)]
  }

  /** The same, from the tag of the victim. */
  function Asked(victim: u64, l: nat, linesz: nat): seq<Request> {
    (if IsValid(victim) && HasDirty(victim) then [Request(Line(victim) * linesz, linesz, true)] else []) +
        [Request(l * linesz, linesz, false)]
  }

  lemma AskedIs(lines: Lines, victim: u64, v: Option<nat>, l: nat, linesz: nat)
    requires v == if IsValid(victim) then Some(Line(victim)) else None
    requires v.Some? ==> v.value in lines && lines[v.value] == HasDirty(victim)
    ensures Asked(victim, l, linesz) == Requests(lines, v, l, linesz)
    ensures |Evicted(lines, v)| == if IsValid(victim) && HasDirty(victim) then 1 else 0
  {
    hide IsValid, HasDirty, Line;
  }

  /** lfsr_t::next */
  function NextRandom(reg: bv32): bv32 {
    (reg >> 1) ^ ((0 - (reg & 1)) & 0xd000_0001)
  }

  /** The state before a step, which the top bit of the new state gives away. */
  function Previous(x: bv32): bv32 {
    ((if x >> 31 == 1 then x ^ 0xd000_0001 else x) << 1) | (x >> 31)
  }

  /** A shift, with taps when a one is shifted out; steps can be undone, so that the
      generator never runs into a state twice but in a cycle. */
  lemma NextRandomUndone(r: bv32)
    ensures Previous(NextRandom(r)) == r
  {
  }

  lemma NextRandomShifts(r: bv32)
    ensures r & 1 == 0 ==> NextRandom(r) == r >> 1
    ensures r & 1 == 1 ==> NextRandom(r) == (r >> 1) ^ 0xd000_0001
  {
    hide NextRandom;
    if r & 1 == 0 {
      ShiftEven(r);
    } else if r & 1 == 1 {
      ShiftOdd(r);
    }
  }

  lemma ShiftEven(r: bv32)
    requires r & 1 == 0
    ensures NextRandom(r) == r >> 1
  {
  }

  lemma ShiftOdd(r: bv32)
    requires r & 1 == 1
    ensures NextRandom(r) == (r >> 1) ^ 0xd000_0001
  {
  }

  /** The set that the index bits of a line select. */
  function SetOf(l: nat, sets: nat): (s: nat)
    requires sets > 0
    ensures s < sets
  {
    l % sets
  }

  lemma SetIs(l: nat, sets: nat)
    requires sets > 0
    ensures SetOf(l, sets) == l % sets
  {
  }

  /** The line of an address. */
  function LineOf(addr: u64, linesz: nat): (l: nat)
    requires linesz >= 8
    ensures l < DIRTY
  {
    addr / linesz
  }

  // Tags are kept in one array, way after way and set after set.

  function Slot(s: nat, w: nat, ways: nat): nat {
    s * ways + w
  }

  lemma SlotInside(s: nat, w: nat, sets: nat, ways: nat)
    requires s < sets && w < ways
    ensures Slot(s, w, ways) < sets * ways
  {
    assert s * ways + ways == (s + 1) * ways <= sets * ways;
  }

  lemma SlotOrder(s: nat, w: nat, s': nat, w': nat, ways: nat)
    requires w < ways && s < s'
    ensures Slot(s, w, ways) < Slot(s', w', ways)
  {
    assert s' * ways >= (s + 1) * ways == s * ways + ways;
  }

  lemma SlotInjective(s: nat, w: nat, s': nat, w': nat, ways: nat)
    requires w < ways && w' < ways && Slot(s, w, ways) == Slot(s', w', ways)
    ensures s == s' && w == w'
  {
    if s < s' {
      SlotOrder(s, w, s', w', ways);
    } else if s' < s {
      SlotOrder(s', w', s, w, ways);
    }
  }

  function At(ts: seq<u64>, s: nat, w: nat, ways: nat): u64 {
    if Slot(s, w, ways) < |ts| then ts[Slot(s, w, ways)] else 0
  }

  lemma AtUpdate(ts: seq<u64>, s: nat, w: nat, ways: nat, t: u64, s': nat, w': nat)
    requires Slot(s, w, ways) < |ts| && w < ways && w' < ways
    ensures At(ts[Slot(s, w, ways) := t], s', w', ways) == if s' == s && w' == w then t else At(ts, s', w', ways)
  {
    hide Slot;
    if Slot(s, w, ways) == Slot(s', w', ways) {
      SlotInjective(s, w, s', w', ways);
    }
  }

  predicate Holds(ts: seq<u64>, s: nat, w: nat, ways: nat, l: nat) {
    IsValid(At(ts, s, w, ways)) && Line(At(ts, s, w, ways)) == l
  }

  /** A valid tag is in the set its index bits select and tells of a resident line. */
  predicate TagOk(t: u64, s: nat, sets: nat, lines: Lines)
    requires sets > 0
  {
    IsValid(t) ==> SetOf(Line(t), sets) == s && Line(t) in lines && lines[Line(t)] == HasDirty(t)
  }

  /** The tags hold the resident lines, each in its set and none in two ways. */
  ghost predicate Represents(ts: seq<u64>, sets: nat, ways: nat, lines: Lines) {
    && sets > 0 && |ts| == sets * ways
    && (forall s, w :: 0 <= s < sets && 0 <= w < ways ==> TagOk(At(ts, s, w, ways), s, sets, lines))
    && (forall s, w, x, l ::
          0 <= s < sets && 0 <= w < ways && 0 <= x < ways && Holds(ts, s, w, ways, l) && Holds(ts, s, x, ways, l) ==>
          w == x)
    && (forall l :: l in lines ==> exists w :: 0 <= w < ways && Holds(ts, SetOf(l, sets), w, ways, l))
  }

  lemma NotResident(ts: seq<u64>, sets: nat, ways: nat, lines: Lines, l: nat)
    requires Represents(ts, sets, ways, lines)
    requires forall w :: 0 <= w < ways ==> !Holds(ts, SetOf(l, sets), w, ways, l)
    ensures l !in lines
  {
  }

  /** Some slot other than that of way `w` of set `s` holds the line. */
  predicate HeldElsewhere(ts: seq<u64>, sets: nat, ways: nat, s: nat, w: nat, l: nat)
    requires sets > 0
  {
    exists w' :: 0 <= w' < ways && (SetOf(l, sets) != s || w' != w) && Holds(ts, SetOf(l, sets), w', ways, l)
  }

  /** Any change of one slot, seen from all slots. */
  lemma OneSlot(ts: seq<u64>, sets: nat, ways: nat, s: nat, w: nat, t: u64, lines: Lines, lines': Lines)
    requires Represents(ts, sets, ways, lines) && s < sets && w < ways
    requires TagOk(t, s, sets, lines')
    requires forall s', w' :: 0 <= s' < sets && 0 <= w' < ways && (s' != s || w' != w) ==>
              TagOk(At(ts, s', w', ways), s', sets, lines')
    requires IsValid(t) ==> forall w' :: 0 <= w' < ways && w' != w ==> !Holds(ts, s, w', ways, Line(t))
    requires forall l :: l in lines' ==>
              (IsValid(t) && Line(t) == l && SetOf(l, sets) == s) || HeldElsewhere(ts, sets, ways, s, w, l)
    ensures Slot(s, w, ways) < |ts| && Represents(ts[Slot(s, w, ways) := t], sets, ways, lines')
  {
    hide TagOk, SetOf, Line, At, Slot;
    SlotInside(s, w, sets, ways);
    var us := ts[Slot(s, w, ways) := t];
    forall s', w' | 0 <= s' < sets && 0 <= w' < ways
      ensures At(us, s', w', ways) == if s' == s && w' == w then t else At(ts, s', w', ways)
    {
      AtUpdate(ts, s, w, ways, t, s', w');
    }
    forall s', w', x, l | 0 <= s' < sets && 0 <= w' < ways && 0 <= x < ways && Holds(us, s', w', ways, l) &&
        Holds(us, s', x, ways, l)
      ensures w' == x
    {
      assert At(us, s', w', ways) == if s' == s && w' == w then t else At(ts, s', w', ways);
      assert At(us, s', x, ways) == if s' == s && x == w then t else At(ts, s', x, ways);
      assert s' == s && w' == w && x != w ==> !Holds(ts, s, x, ways, l);
      assert s' == s && x == w && w' != w ==> !Holds(ts, s, w', ways, l);
      assert Holds(ts, s', w', ways, l) && Holds(ts, s', x, ways, l) ==> w' == x;
    }
    forall l | l in lines'
      ensures exists w' :: 0 <= w' < ways && Holds(us, SetOf(l, sets), w', ways, l)
    {
      if IsValid(t) && Line(t) == l && SetOf(l, sets) == s {
        assert Holds(us, s, w, ways, l);
      } else {
        var w' :| 0 <= w' < ways && (SetOf(l, sets) != s || w' != w) && Holds(ts, SetOf(l, sets), w', ways, l);
        assert Holds(us, SetOf(l, sets), w', ways, l);
      }
    }
  }

  lemma DirtyRepresents(ts: seq<u64>, sets: nat, ways: nat, w: nat, lines: Lines, l: nat)
    requires Represents(ts, sets, ways, lines) && w < ways && l in lines && l < DIRTY
    requires Holds(ts, SetOf(l, sets), w, ways, l)
    ensures Slot(SetOf(l, sets), w, ways) < |ts|
    ensures Represents(ts[Slot(SetOf(l, sets), w, ways) := SetDirty(At(ts, SetOf(l, sets), w, ways))], sets, ways,
                       lines[l := true])
  {
    var s := SetOf(l, sets);
    var t := At(ts, s, w, ways);
    TagFacts(t, l);
    hide SetOf, Line, At, Slot, SetDirty, IsValid, HasDirty;
    forall s', w' | 0 <= s' < sets && 0 <= w' < ways && (s' != s || w' != w)
      ensures TagOk(At(ts, s', w', ways), s', sets, lines[l := true])
    {
      OtherSlot(ts, sets, ways, s, w, s', w', lines, l);
    }
    OneSlot(ts, sets, ways, s, w, SetDirty(t), lines, lines[l := true]);
  }

  /** A slot other than the one that holds a line does not hold it. */
  lemma OtherSlot(ts: seq<u64>, sets: nat, ways: nat, s: nat, w: nat, s': nat, w': nat, lines: Lines, l: nat)
    requires Represents(ts, sets, ways, lines) && s < sets && w < ways && s' < sets && w' < ways && (s' != s || w' != w)
    requires Holds(ts, s, w, ways, l)
    ensures !Holds(ts, s', w', ways, l)
    ensures TagOk(At(ts, s', w', ways), s', sets, lines)
  {
    hide SetOf, Line, At, Slot;
    assert TagOk(At(ts, s, w, ways), s, sets, lines) && TagOk(At(ts, s', w', ways), s', sets, lines);
  }

  /** The lines after a way of the set of `l` is given to it. */
  lemma ReplaceRepresents(ts: seq<u64>, sets: nat, ways: nat, w: nat, lines: Lines, l: nat)
    requires Represents(ts, sets, ways, lines) && w < ways && l !in lines && l < DIRTY
    ensures var s := SetOf(l, sets);
            var t := At(ts, s, w, ways);
            var v := if IsValid(t) then Some(Line(t)) else None;
            && Slot(s, w, ways) < |ts|
            && (v.Some? ==> v.value in lines && lines[v.value] == HasDirty(t) && SetOf(v.value, sets) == s)
            && Represents(ts[Slot(s, w, ways) := MakeTag(l)], sets, ways, Replace(lines, v, l, false))
  {
    var s := SetOf(l, sets);
    var t := At(ts, s, w, ways);
    var v := if IsValid(t) then Some(Line(t)) else None;
    var lines' := Replace(lines, v, l, false);
    TagFacts(t, l);
    hide SetOf, Line, At, Slot, MakeTag, IsValid, HasDirty;
    assert TagOk(t, s, sets, lines);
    forall s', w' | 0 <= s' < sets && 0 <= w' < ways && (s' != s || w' != w)
      ensures TagOk(At(ts, s', w', ways), s', sets, lines')
    {
      assert TagOk(At(ts, s', w', ways), s', sets, lines);
      if v.Some? {
        OtherSlot(ts, sets, ways, s, w, s', w', lines, v.value);
      }
    }
    forall w' | 0 <= w' < ways
      ensures !Holds(ts, s, w', ways, l)
    {
      assert TagOk(At(ts, s, w', ways), s, sets, lines);
    }
    forall x | x in lines' && x != l
      ensures HeldElsewhere(ts, sets, ways, s, w, x)
    {
      var w' :| 0 <= w' < ways && Holds(ts, SetOf(x, sets), w', ways, x);
      assert SetOf(x, sets) == s && w' == w ==> v == Some(x);
    }
    OneSlot(ts, sets, ways, s, w, MakeTag(l), lines, lines');
  }

  // ---- runs of accesses

  /** An access to a line, and the line that made way for it. */
  datatype Visit = Visit(line: nat, store: bool, victim: Option<nat>)

  /** What one access makes of the resident lines: on a miss only a line of the same
      index may make way. */
  predicate Taken(sets: nat, a: Lines, x: Visit, b: Lines)
    requires sets > 0
  {
    if x.line in a then b == Touch(a, x.line, x.store)
    else
      && (x.victim.Some? ==> x.victim.value in a && x.victim.value % sets == x.line % sets)
      && b == Replace(a, x.victim, x.line, x.store)
  }

  predicate Runs(sets: nat, states: seq<Lines>, xs: seq<Visit>)
    requires sets > 0
  {
    |states| == |xs| + 1 && forall k :: 0 <= k < |xs| ==> Taken(sets, states[k], xs[k], states[k + 1])
  }

  /** A resident line stays until an access goes to another line of its index. */
  lemma {:induction false} StaysResident(sets: nat, states: seq<Lines>, xs: seq<Visit>, i: nat, j: nat, l: nat)
    requires sets > 0 && Runs(sets, states, xs) && i <= j < |states| && l in states[i]
    requires forall k :: i <= k < j ==> xs[k].line == l || xs[k].line % sets != l % sets
    ensures l in states[j]
    decreases j - i
  {
    if i < j {
      assert Taken(sets, states[i], xs[i], states[i + 1]);
      StaysResident(sets, states, xs, i + 1, j, l);
    }
  }

  /** As many consecutive lines as there are sets are resident together, even with
      one way. */
  lemma ConsecutiveResident(sets: nat, states: seq<Lines>, xs: seq<Visit>, first: nat, n: nat)
    requires sets > 0 && Runs(sets, states, xs) && |xs| == sets && n < sets
    requires forall k :: 0 <= k < sets ==> xs[k].line == first + k
    ensures first + n in states[sets]
  {
    assert Taken(sets, states[n], xs[n], states[n + 1]);
    forall k | n + 1 <= k < sets
      ensures xs[k].line % sets != (first + n) % sets
    {
      Apart(first + n, k - n, sets);
    }
    StaysResident(sets, states, xs, n + 1, sets, first + n);
  }

  lemma Apart(a: nat, d: nat, sets: nat)
    requires 0 < d < sets
    ensures (a + d) % sets != a % sets
  {
    if (a + d) % sets == a % sets {
      var q := (a + d) / sets - a / sets;
      assert d == q * sets by {
        assert a + d == (a + d) / sets * sets + (a + d) % sets && a == a / sets * sets + a % sets;
        assert q * sets == (a + d) / sets * sets - a / sets * sets;
      }
      AtLeast(q, sets);
    }
  }

  class SetCache {
    const sets: nat
    const ways: nat
    const linesz: nat
    const tags: array<u64>
    var lfsr: bv32
    var readAccesses: nat
    var readMisses: nat
    var bytesRead: nat
    var writeAccesses: nat
    var writeMisses: nat
    var bytesWritten: nat
    var writebacks: nat
    ghost var lines: Lines
    ghost var log: seq<Event>

    /** All but the counters of stores and write-backs. */
    ghost predicate Coherent()
      reads this, tags
    {
      && sets > 0 && ways > 0 && linesz >= 8 && PowerOfTwo(sets) && PowerOfTwo(linesz)
      && Represents(tags[..], sets, ways, lines) && Told(lines, log) && Paid(lines, log)
    }

    ghost predicate Valid()
      reads this, tags
    {
      Coherent() && writebacks == WriteBacks(log) && writeAccesses == Stores(log)
    }

    constructor (sets: nat, ways: nat, linesz: nat)
      requires ways > 0 && linesz >= 8 && PowerOfTwo(sets) && PowerOfTwo(linesz)
      ensures Valid() && lines == map[] && log == [] && fresh(tags)
      ensures this.sets == sets && this.ways == ways && this.linesz == linesz
    {
      this.sets, this.ways, this.linesz := sets, ways, linesz;
      tags := new u64[sets * ways](_ => 0);
      lfsr := 1;
      readAccesses, readMisses, bytesRead, writeAccesses, writeMisses, bytesWritten, writebacks := 0, 0, 0, 0, 0, 0, 0;
      lines, log := map[], [];
      new;
      EmptyRepresents(tags[..], sets, ways);
      assert DirtyLines(map[]) == {};
    }

    /** check_tag */
    method CheckTag(l: nat) returns (hit: Option<nat>)
      requires sets > 0 && Represents(tags[..], sets, ways, lines) && l < DIRTY
      ensures hit.Some? ==> hit.value < ways && Holds(tags[..], SetOf(l, sets), hit.value, ways, l) && l in lines
      ensures hit.None? ==> l !in lines
    {
      hide Slot, SetOf, Line, IsValid, MakeTag, Undirty;
      var idx := SetOf(l, sets);
      for i := 0 to ways
        invariant forall w :: 0 <= w < i ==> !Holds(tags[..], idx, w, ways, l)
      {
        SlotInside(idx, i, sets, ways);
        var t := tags[Slot(idx, i, ways)];
        assert t == At(tags[..], idx, i, ways);
        TagFacts(t, l);
        if MakeTag(l) == Undirty(t) {
          assert TagOk(t, idx, sets, lines);
          return Some(i);
        }
      }
      NotResident(tags[..], sets, ways, lines, l);
      return None;
    }

    /** Setting the dirty bit of the way that holds a line. */
    method MarkDirty(l: nat, way: nat)
      requires sets > 0 && Represents(tags[..], sets, ways, lines) && l < DIRTY && l in lines
      requires way < ways && Holds(tags[..], SetOf(l, sets), way, ways, l)
      modifies tags, this`lines
      ensures Represents(tags[..], sets, ways, lines) && lines == Touch(old(lines), l, true)
    {
      hide Represents, SetOf, Holds, SetDirty, Slot;
      var slot := Slot(SetOf(l, sets), way, ways);
      DirtyRepresents(tags[..], sets, ways, way, lines, l);
      ghost var ts := tags[..];
      tags[slot] := SetDirty(tags[slot]);
      assert tags[..] == ts[slot := SetDirty(ts[slot])];
      lines := lines[l := true];
    }

    /** victimize: the old tag, and a clean new one in its place. */
    method Victimize(l: nat) returns (victim: u64, way: nat, ghost v: Option<nat>)
      requires sets > 0 && ways > 0 && Represents(tags[..], sets, ways, lines) && l < DIRTY && l !in lines
      modifies this`lfsr, this`lines, tags
      ensures Represents(tags[..], sets, ways, lines) && way < ways && Holds(tags[..], SetOf(l, sets), way, ways, l)
      ensures lfsr == NextRandom(old(lfsr)) && way == lfsr as int % ways
      ensures victim == At(old(tags[..]), l % sets, way, ways)
      ensures v == if IsValid(victim) then Some(Line(victim)) else None
      ensures v.Some? ==>
                && v.value in old(lines) && old(lines)[v.value] == HasDirty(victim)
                && v.value % sets == l % sets
      ensures lines == Replace(old(lines), v, l, false)
    {
      hide Represents, SetOf, Slot, MakeTag, IsValid, HasDirty, Line, NextRandom;
      lfsr := NextRandom(lfsr);
      way := lfsr as int % ways;
      var slot := Slot(SetOf(l, sets), way, ways);
      ReplaceRepresents(tags[..], sets, ways, way, lines, l);
      ghost var ts := tags[..];
      victim := tags[slot];
      v := if IsValid(victim) then Some(Line(victim)) else None;
      SetIs(l, sets);
      if v.Some? {
        SetIs(v.value, sets);
      }
      tags[slot] := MakeTag(l);
      assert tags[..] == ts[slot := MakeTag(l)];
      lines := Replace(lines, v, l, false);
      TagFacts(victim, l);
    }

    /** What an access does to the lines and the log, and what it asks of the next level. */
    twostate predicate Accessed(l: nat, store: bool, new requests: seq<Request>, new v: Option<nat>)
      reads this
    {
      && sets > 0 && Taken(sets, old(lines), Visit(l, store, v), lines)
      && if l in old(lines) then requests == [] && log == old(log) + [EventOf(l, store)]
         else
           && requests == Requests(old(lines), v, l, linesz)
           && log == old(log) + Evicted(old(lines), v) + [EventOf(l, store)]
    }

    /** access, on a hit; the counters of accesses are already up. */
    method Hit(l: nat, way: nat, store: bool)
      requires Coherent() && l < DIRTY && l in lines && way < ways && Holds(tags[..], SetOf(l, sets), way, ways, l)
      requires writebacks == WriteBacks(log) && writeAccesses == Stores(log) + if store then 1 else 0
      modifies this`lines, this`log, tags
      ensures Valid() && Accessed(l, store, [], None)
    {
      hide Told, Paid, Pending, Stores, WriteBacks, SetOf, Represents, Holds, PowerOfTwo;
      ghost var was, e := lines, EventOf(l, store);
      TouchKeeps(lines, log, l, store);
      Append(log, e, l);
      if store {
        MarkDirty(l, way);
      }
      assert lines == Touch(was, l, store);

      log := log + [e];
    }

    /** access, on a miss. */
    method Miss(l: nat, store: bool) returns (requests: seq<Request>, ghost v: Option<nat>)
      requires Coherent() && l < DIRTY && l !in lines
      requires writebacks == WriteBacks(log) && writeAccesses == Stores(log) + if store then 1 else 0
      modifies this`lines, this`log, this`lfsr, this`writebacks, tags
      ensures Valid() && Accessed(l, store, requests, v)
    {
      hide Told, Paid, Pending, Stores, WriteBacks, SetOf, Line, Represents, Holds, IsValid, HasDirty, Asked, Requests;
      ghost var was := lines;
      var victim, way;
      victim, way, v := Victimize(l);
      ReplaceKeeps(was, log, v, l, store);
      Counts(was, log, v, l, store);
      requests := Asked(victim, l, linesz);
      AskedIs(was, victim, v, l, linesz);
      if IsValid(victim) && HasDirty(victim) {
        writebacks := writebacks + 1;
      }
      if store {
        MarkDirty(l, way);
      }
      assert lines == Replace(was, v, l, store);
      log := log + Evicted(was, v) + [EventOf(l, store)];
    }

    /** access */
    method Access(addr: u64, bytes: nat, store: bool) returns (requests: seq<Request>, ghost v: Option<nat>)
      requires Valid()
      modifies this, tags
      ensures Valid() && Accessed(LineOf(addr, linesz), store, requests, v)
      ensures writeAccesses == old(writeAccesses) + (if store then 1 else 0)
      ensures readAccesses == old(readAccesses) + (if store then 0 else 1)
      ensures bytesWritten == old(bytesWritten) + (if store then bytes else 0)
      ensures bytesRead == old(bytesRead) + (if store then 0 else bytes)
      ensures writeMisses == old(writeMisses) + (if store && LineOf(addr, linesz) !in old(lines) then 1 else 0)
      ensures readMisses == old(readMisses) + (if !store && LineOf(addr, linesz) !in old(lines) then 1 else 0)
    {
      hide Told, Paid, Pending, Stores, WriteBacks, Represents, LineOf, Holds;
      if store {
        writeAccesses, bytesWritten := writeAccesses + 1, bytesWritten + bytes;
      } else {
        readAccesses, bytesRead := readAccesses + 1, bytesRead + bytes;
      }
      var l := LineOf(addr, linesz);
      requests, v := [], None;
      var hit := CheckTag(l);
      if hit.Some? {
        Hit(l, hit.value, store);
        return;
      }
      if store {
        writeMisses := writeMisses + 1;
      } else {
        readMisses := readMisses + 1;
      }
      requests, v := Miss(l, store);
    }
  }

  // ---- the fully associative cache

  /** A map from lines to tags holds the resident lines. */
  ghost predicate MapHolds(tags: map<nat, u64>, lines: Lines) {
    && tags.Keys == lines.Keys
    && forall l :: l in tags ==> IsValid(tags[l]) && Line(tags[l]) == l && HasDirty(tags[l]) == lines[l]
  }

  lemma MapSize(tags: map<nat, u64>, lines: Lines)
    requires MapHolds(tags, lines)
    ensures |tags| == |lines| && forall l :: l in tags <==> l in lines
  {
    assert |lines| == |lines.Keys| && |tags| == |tags.Keys|;
  }

  lemma MapEvict(tags: map<nat, u64>, lines: Lines, k: nat)
    requires MapHolds(tags, lines) && k in tags
    ensures MapHolds(tags - {k}, lines - {k}) && |tags - {k}| == |tags| - 1
    ensures k in lines && IsValid(tags[k]) && Line(tags[k]) == k && HasDirty(tags[k]) == lines[k]
  {
    hide IsValid, Line, HasDirty;
    assert (tags - {k}).Keys == tags.Keys - {k} && (lines - {k}).Keys == lines.Keys - {k};
    assert |tags| == |tags.Keys| && |tags - {k}| == |(tags - {k}).Keys|;
  }

  lemma MapFill(tags: map<nat, u64>, lines: Lines, l: nat)
    requires MapHolds(tags, lines) && l !in lines && l < DIRTY
    ensures MapHolds(tags[l := MakeTag(l)], lines[l := false]) && |tags[l := MakeTag(l)]| == |tags| + 1
  {
    TagFacts(0, l);
    hide IsValid, Line, HasDirty, MakeTag;
    var t := tags[l := MakeTag(l)];
    assert t.Keys == tags.Keys + {l};
    assert |tags| == |tags.Keys| && |t| == |t.Keys|;
  }

  lemma MapDirty(tags: map<nat, u64>, lines: Lines, l: nat)
    requires MapHolds(tags, lines) && l in tags && l < DIRTY
    ensures MapHolds(tags[l := SetDirty(tags[l])], lines[l := true]) && |tags[l := SetDirty(tags[l])]| == |tags|
  {
    TagFacts(tags[l], l);
    hide IsValid, Line, HasDirty, SetDirty;
    var t := tags[l := SetDirty(tags[l])];
    assert t.Keys == tags.Keys;
    assert |tags| == |tags.Keys| && |t| == |t.Keys|;
  }

  class FullCache {
    const ways: nat
    const linesz: nat
    var tags: map<nat, u64>
    var readAccesses: nat
    var readMisses: nat
    var writeAccesses: nat
    var writeMisses: nat
    var writebacks: nat
    ghost var lines: Lines
    ghost var log: seq<Event>

    ghost predicate Valid()
      reads this
    {
      && ways > 0 && linesz >= 8 && MapHolds(tags, lines) && |tags| <= ways
      && Told(lines, log) && Paid(lines, log) && writebacks == WriteBacks(log) && writeAccesses == Stores(log)
    }

    constructor (ways: nat, linesz: nat)
      requires ways > 0 && linesz >= 8
      ensures Valid() && lines == map[] && log == [] && this.ways == ways && this.linesz == linesz
    {
      this.ways, this.linesz, tags := ways, linesz, map[];
      readAccesses, readMisses, writeAccesses, writeMisses, writebacks := 0, 0, 0, 0, 0;
      lines, log := map[], [];
      new;
      assert DirtyLines(map[]) == {};
    }

    /** victimize: any one entry makes way, and only when the cache is full. */
    method Victimize(l: nat) returns (victim: u64, ghost v: Option<nat>)
      requires MapHolds(tags, lines) && |tags| <= ways && ways > 0 && l < DIRTY && l !in lines
      modifies this`tags, this`lines
      ensures MapHolds(tags, lines) && |tags| <= ways && l in tags
      ensures v.Some? <==> |old(lines)| == ways
      ensures v == if IsValid(victim) then Some(Line(victim)) else None
      ensures v.Some? ==> v.value in old(lines) && old(lines)[v.value] == HasDirty(victim)
      ensures lines == Replace(old(lines), v, l, false)
    {
      hide MapHolds, Line, IsValid, HasDirty, MakeTag;
      MapSize(tags, lines);
      NoTag();
      victim, v := 0, None;
      if |tags| == ways {
        var k: nat :| k in tags by { SomeKey(tags); }
        MapEvict(tags, lines, k);
        victim, v := tags[k], Some(k);
        tags, lines := tags - {k}, lines - {k};
      }
      MapFill(tags, lines, l);
      tags, lines := tags[l := MakeTag(l)], lines[l := false];
    }

    /** access, with the map in place of the array. */
    method Access(addr: u64, store: bool) returns (requests: seq<Request>, ghost v: Option<nat>)
      requires Valid()
      modifies this
      ensures Valid()
      ensures var l := LineOf(addr, linesz);
              if l in old(lines) then
                lines == Touch(old(lines), l, store) && requests == [] && log == old(log) + [EventOf(l, store)]
              else
                && (v.Some? <==> |old(lines)| == ways) && (v.Some? ==> v.value in old(lines))
                && lines == Replace(old(lines), v, l, store)
                && requests == Requests(old(lines), v, l, linesz)
                && log == old(log) + Evicted(old(lines), v) + [EventOf(l, store)]
      ensures writeAccesses == old(writeAccesses) + (if store then 1 else 0)
      ensures readAccesses == old(readAccesses) + (if store then 0 else 1)
      ensures writeMisses == old(writeMisses) + (if store && LineOf(addr, linesz) !in old(lines) then 1 else 0)
      ensures readMisses == old(readMisses) + (if !store && LineOf(addr, linesz) !in old(lines) then 1 else 0)
    {
      hide Told, Paid, Pending, Stores, WriteBacks, LineOf, MapHolds;
      MapSize(tags, lines);
      var l := LineOf(addr, linesz);
      requests, v := [], None;
      if store {
        writeAccesses := writeAccesses + 1;
      } else {
        readAccesses := readAccesses + 1;
      }
      if l in tags {
        TouchKeeps(lines, log, l, store);
        Append(log, EventOf(l, store), l);
        if store {
          SetFlag(l);
        }
        log := log + [EventOf(l, store)];
        return;
      }
      if store {
        writeMisses := writeMisses + 1;
      } else {
        readMisses := readMisses + 1;
      }
      requests, v := Refill(l, store);
    }

    method SetFlag(l: nat)
      requires MapHolds(tags, lines) && l in tags && l < DIRTY
      modifies this`tags, this`lines
      ensures MapHolds(tags, lines) && |tags| == |old(tags)| && lines == old(lines)[l := true]
    {
      hide MapHolds, SetDirty;
      MapDirty(tags, lines, l);
      tags, lines := tags[l := SetDirty(tags[l])], lines[l := true];
    }

    method Refill(l: nat, store: bool) returns (requests: seq<Request>, ghost v: Option<nat>)
      requires ways > 0 && linesz >= 8 && MapHolds(tags, lines) && |tags| <= ways && l < DIRTY && l !in lines
      requires Told(lines, log) && Paid(lines, log)
      requires writebacks == WriteBacks(log) && writeAccesses == Stores(log) + if store then 1 else 0
      modifies this`tags, this`lines, this`log, this`writebacks
      ensures Valid()
      ensures (v.Some? <==> |old(lines)| == ways) && (v.Some? ==> v.value in old(lines))
      ensures lines == Replace(old(lines), v, l, store) && requests == Requests(old(lines), v, l, linesz)
      ensures log == old(log) + Evicted(old(lines), v) + [EventOf(l, store)]
    {
      hide Told, Paid, Pending, Stores, WriteBacks, Line, IsValid, HasDirty, MapHolds, Asked, Requests;
      ghost var was := lines;
      var victim;
      victim, v := Victimize(l);
      ReplaceKeeps(was, log, v, l, store);
      Counts(was, log, v, l, store);
      requests := Asked(victim, l, linesz);
      AskedIs(was, victim, v, l, linesz);
      if IsValid(victim) && HasDirty(victim) {
        writebacks := writebacks + 1;
      }
      if store {
        SetFlag(l);
      }
      assert lines == Replace(was, v, l, store);
      log := log + Evicted(was, v) + [EventOf(l, store)];
    }
  }

  lemma NoTag()
    ensures !IsValid(0)
  {
  }

  lemma SomeKey(tags: map<nat, u64>)
    requires |tags| > 0
    ensures exists k: nat :: k in tags
  {
    assert |tags| == |tags.Keys|;
    var k :| k in tags.Keys;
    assert k in tags;
  }

  lemma EmptyRepresents(ts: seq<u64>, sets: nat, ways: nat)
    requires sets > 0 && |ts| == sets * ways && forall i :: 0 <= i < |ts| ==> ts[i] == 0
    ensures Represents(ts, sets, ways, map[])
  {
    hide Slot;
    assert forall s, w :: At(ts, s, w, ways) == 0;
  }

  /** The address passed on is that of the line: `addr & ~(linesz - 1)`. */
  lemma LineStart(addr: u64, linesz: nat)
    requires linesz >= 8
    ensures addr - addr % linesz == LineOf(addr, linesz) * linesz
  {
  }

  lemma Counts(lines: Lines, log: seq<Event>, v: Option<nat>, l: nat, store: bool)
    requires v.Some? ==> v.value in lines
    ensures var log' := log + Evicted(lines, v) + [EventOf(l, store)];
            && WriteBacks(log') == WriteBacks(log) + |Evicted(lines, v)|
            && Stores(log') == Stores(log) + if store then 1 else 0
  {
    hide Stores, WriteBacks;
    var e := Evicted(lines, v);
    Append(log + e, EventOf(l, store), l);
    if e == [] {
      assert log + e == log;
    } else {
      Append(log, e[0], l);
    }
  }
}
