/** Abstract commands over whole runs: what happens to data, program buffer and
    code while one is in progress, and what has to happen before it ends. */
module CommandRuns {
  import opened Bytes
  import AC = AbstractCode
  import opened DebugModule
  import opened DebugBus

  // ---- runs in parts

  /** A first operation, and the run after it. */
  lemma RunCons(c: Config, s: State, ops: seq<Op>)
    requires Valid(c, s) && ops != [] && Possible(c, s, ops[0]) && Valid(c, Step(c, s, ops[0]))
    ensures Runnable(c, s, ops) <==> Runnable(c, Step(c, s, ops[0]), ops[1..])
    ensures Runnable(c, s, ops) ==> Run(c, s, ops) == Run(c, Step(c, s, ops[0]), ops[1..])
  {
    hide Step, Valid, Possible;
    StepValid(c, s, ops[0]);
  }

  lemma RunHead(c: Config, s: State, ops: seq<Op>)
    requires Valid(c, s) && Runnable(c, s, ops) && ops != []
    ensures Possible(c, s, ops[0]) && Valid(c, Step(c, s, ops[0]))
  {
    hide Step, Valid, Possible;
    StepValid(c, s, ops[0]);
  }

  lemma RunNone(c: Config, s: State)
    requires Valid(c, s)
    ensures Runnable(c, s, []) && Run(c, s, []) == s
  {
  }

  /** A run up to its `n`-th operation, and the rest of it. */
  lemma {:induction false} RunSplit(c: Config, s: State, ops: seq<Op>, n: nat)
    requires Valid(c, s) && Runnable(c, s, ops) && n <= |ops|
    ensures Runnable(c, s, ops[..n]) && Valid(c, Run(c, s, ops[..n]))
    ensures Runnable(c, Run(c, s, ops[..n]), ops[n..])
    ensures Run(c, s, ops) == Run(c, Run(c, s, ops[..n]), ops[n..])
    decreases |ops|
  {
    hide Step, Valid, Possible, Run, Runnable;
    if n == 0 {
      RunNone(c, s);
      assert ops[..0] == [] && ops[0..] == ops;
    } else {
      assert ops[1..][..n - 1] == ops[..n][1..] && ops[1..][n - 1..] == ops[n..] && ops[..n][0] == ops[0];
      RunHead(c, s, ops);
      RunCons(c, s, ops);
      RunCons(c, s, ops[..n]);
      RunSplit(c, Step(c, s, ops[0]), ops[1..], n - 1);
    }
  }

  /** All but the last operation of a run, or event of a log. */
  function Init<T>(ops: seq<T>): seq<T>
    requires ops != []
  {
    ops[..|ops| - 1]
  }

  function Last<T>(ops: seq<T>): T
    requires ops != []
  {
    ops[|ops| - 1]
  }

  lemma RunLast(c: Config, s: State, ops: seq<Op>)
    requires Valid(c, s) && Runnable(c, s, ops) && ops != []
    ensures Runnable(c, s, Init(ops)) && Valid(c, Run(c, s, Init(ops)))
    ensures Possible(c, Run(c, s, Init(ops)), Last(ops))
    ensures Run(c, s, ops) == Step(c, Run(c, s, Init(ops)), Last(ops))
  {
    hide Step, Valid, Possible;
    RunSplit(c, s, ops, |ops| - 1);
    assert ops[|ops| - 1..] == [Last(ops)];
    StepValid(c, Run(c, s, Init(ops)), Last(ops));
    assert ops[|ops| - 1..][1..] == [];
  }

  // ---- while a command is in progress

  /** The module is busy whenever an operation of the run takes its turn. */
  predicate BusyBefore(c: Config, s: State, ops: seq<Op>)
    requires Valid(c, s) && Runnable(c, s, ops)
    decreases |ops|
  {
    ops == [] || (s.core.busy && (StepValid(c, s, ops[0]); BusyBefore(c, Step(c, s, ops[0]), ops[1..])))
  }

  /** All that the module hears in the course of a run: stores of harts, stores of
      the debugger over the system bus, and idle cycles. */
  function Log(c: Config, s: State, ops: seq<Op>): seq<Event>
    requires Valid(c, s) && Runnable(c, s, ops)
    decreases |ops|
  {
    if ops == [] then []
    else StepValid(c, s, ops[0]); Heard(c, s, ops[0]) + Log(c, Step(c, s, ops[0]), ops[1..])
  }

  lemma LogCons(c: Config, s: State, ops: seq<Op>)
    requires Valid(c, s) && Runnable(c, s, ops) && ops != []
    ensures Valid(c, Step(c, s, ops[0])) && Runnable(c, Step(c, s, ops[0]), ops[1..])
    ensures Log(c, s, ops) == Heard(c, s, ops[0]) + Log(c, Step(c, s, ops[0]), ops[1..])
    ensures Run(c, s, ops) == Run(c, Step(c, s, ops[0]), ops[1..])
  {
    hide Step, Valid, Possible, Heard;
    StepValid(c, s, ops[0]);
  }

  lemma {:induction false} LogSplit(c: Config, s: State, ops: seq<Op>, n: nat)
    requires Valid(c, s) && Runnable(c, s, ops) && n <= |ops|
    ensures Runnable(c, s, ops[..n]) && Valid(c, Run(c, s, ops[..n]))
    ensures Runnable(c, Run(c, s, ops[..n]), ops[n..])
    ensures Log(c, s, ops) == Log(c, s, ops[..n]) + Log(c, Run(c, s, ops[..n]), ops[n..])
    decreases |ops|
  {
    hide Step, Valid, Possible, Heard;
    RunSplit(c, s, ops, n);
    if n == 0 {
      assert ops[..0] == [] && ops[0..] == ops;
    } else {
      StepValid(c, s, ops[0]);
      var t, a := Step(c, s, ops[0]), Heard(c, s, ops[0]);
      assert ops[1..][..n - 1] == ops[..n][1..] && ops[1..][n - 1..] == ops[n..] && ops[..n][0] == ops[0];
      LogSplit(c, t, ops[1..], n - 1);
      LogCons(c, s, ops);
      LogCons(c, s, ops[..n]);
      hide Log;
    }
  }

  lemma LogLast(c: Config, s: State, ops: seq<Op>)
    requires Valid(c, s) && Runnable(c, s, ops) && ops != []
    ensures Runnable(c, s, Init(ops)) && Valid(c, Run(c, s, Init(ops)))
    ensures Log(c, s, ops) == Log(c, s, Init(ops)) + Heard(c, Run(c, s, Init(ops)), Last(ops))
  {
    hide Step, Valid, Possible, Heard;
    LogSplit(c, s, ops, |ops| - 1);
    var t, rest := Run(c, s, Init(ops)), ops[|ops| - 1..];
    assert rest[0] == Last(ops) && rest[1..] == [];
    StepValid(c, t, Last(ops));
    assert Log(c, Step(c, t, Last(ops)), rest[1..]) == [];
  }

  /** The stores to the data registers alone. */
  function DataStores(data: seq<byte>, log: seq<Event>): seq<byte>
    decreases |log|
  {
    if log == [] then data
    else if log[0].DataStore? && log[0].at + |log[0].bytes| <= |data| then
      DataStores(Patch(data, log[0].at, log[0].bytes), log[1..])
    else DataStores(data, log[1..])
  }

  /** The stores to the program buffer alone. */
  function ProgbufStores(progbuf: seq<byte>, log: seq<Event>): seq<byte>
    decreases |log|
  {
    if log == [] then progbuf
    else if log[0].ProgbufStore? && log[0].at + |log[0].bytes| <= |progbuf| then
      ProgbufStores(Patch(progbuf, log[0].at, log[0].bytes), log[1..])
    else ProgbufStores(progbuf, log[1..])
  }

  lemma {:induction false} StoresConcat(data: seq<byte>, progbuf: seq<byte>, a: seq<Event>, b: seq<Event>)
    ensures DataStores(data, a + b) == DataStores(DataStores(data, a), b)
    ensures ProgbufStores(progbuf, a + b) == ProgbufStores(ProgbufStores(progbuf, a), b)
    decreases |a|
  {
    hide Patch;
    if a == [] {
      assert a + b == b;
    } else {
      assert (a + b)[0] == a[0] && (a + b)[1..] == a[1..] + b;
      var e := a[0];
      var d := if e.DataStore? && e.at + |e.bytes| <= |data| then Patch(data, e.at, e.bytes) else data;
      var p := if e.ProgbufStore? && e.at + |e.bytes| <= |progbuf| then Patch(progbuf, e.at, e.bytes) else progbuf;
      StoresConcat(d, p, a[1..], b);
    }
  }

  lemma {:induction false} HearStores(k: Core, es: seq<Event>)
    ensures HearAll(k, es).data == DataStores(k.data, es) && HearAll(k, es).progbuf == ProgbufStores(k.progbuf, es)
    decreases |es|
  {
    hide Hear, Patch;
    if es != [] {
      HearStore(k, es[0]);
      HearStores(Hear(k, es[0]), es[1..]);
    }
  }

  lemma HearStore(k: Core, e: Event)
    ensures Hear(k, e).data ==
            if e.DataStore? && e.at + |e.bytes| <= |k.data| then Patch(k.data, e.at, e.bytes) else k.data
    ensures Hear(k, e).progbuf ==
            if e.ProgbufStore? && e.at + |e.bytes| <= |k.progbuf| then Patch(k.progbuf, e.at, e.bytes) else k.progbuf
  {
    hide Patch;
  }

  /** Over every interleaving, as long as a command is in progress, the data and
      the program buffer are what the stores that the module hears make of them,
      and the code of the command stays. Writes to the data registers and to the
      program buffer, new commands and resets have no part in it; the debugger has
      one only by what it stores over the system bus. */
  lemma {:induction false} RunProtected(c: Config, s: State, ops: seq<Op>)
    requires Valid(c, s) && Runnable(c, s, ops) && BusyBefore(c, s, ops)
    ensures var t, log := Run(c, s, ops).core, Log(c, s, ops);
            && t.data == DataStores(s.core.data, log) && t.progbuf == ProgbufStores(s.core.progbuf, log)
            && t.code == s.core.code
    decreases |ops|
  {
    hide Step, Valid, Heard, Possible;
    if ops != [] {
      var es := Heard(c, s, ops[0]);
      StepValid(c, s, ops[0]);
      BusyStep(c, s, ops[0]);
      HearStores(s.core, es);
      RunProtected(c, Step(c, s, ops[0]), ops[1..]);
      StoresConcat(s.core.data, s.core.progbuf, es, Log(c, Step(c, s, ops[0]), ops[1..]));
    }
  }

  /** The stores of harts and the idle cycles of a run, whatever the state. */
  function HartLog(c: Config, ops: seq<Op>): seq<Event>
    decreases |ops|
  {
    if ops == [] then []
    else
      (match ops[0]
       case HartStore(at, bytes) => [Decode(c, at, bytes)]
       case Idle => [Cycle]
       case _ => []) + HartLog(c, ops[1..])
  }

  /** A word written to sbdata0 does not go to the debug module: there is no bus
      mastering of that size, or an error is pending, or the address is beyond
      the first page. */
  predicate Elsewhere(c: Config, b: Sb)
    requires SbValid(b)
  {
    c.busBits < 8 || b.access > 3 || b.error != 0 || Target(b) >= PAGE_END
  }

  predicate Aloof(c: Config, s: State, ops: seq<Op>)
    requires Valid(c, s) && Runnable(c, s, ops)
    decreases |ops|
  {
    ops == [] || (
      && (WritesBus(c, s, ops[0]) ==> Elsewhere(c, s.sb))
      && (StepValid(c, s, ops[0]); Aloof(c, Step(c, s, ops[0]), ops[1..])))
  }

  /** Without bus mastering every run is of this kind. */
  lemma {:induction false} UnmasteredAloof(c: Config, s: State, ops: seq<Op>)
    requires Valid(c, s) && Runnable(c, s, ops) && c.busBits < 8
    ensures Aloof(c, s, ops)
    decreases |ops|
  {
    hide Step, Possible;
    if ops != [] {
      StepValid(c, s, ops[0]);
      UnmasteredAloof(c, Step(c, s, ops[0]), ops[1..]);
    }
  }

  /** If the debugger keeps its stores on the bus away from the debug module, the
      module hears harts and idle cycles only, so that by the lemmas about the log
      no debugger access has any part in data, program buffer and the end of a command. */
  lemma {:induction false} HartsOnly(c: Config, s: State, ops: seq<Op>)
    requires Valid(c, s) && Runnable(c, s, ops) && Aloof(c, s, ops)
    ensures Log(c, s, ops) == HartLog(c, ops)
    decreases |ops|
  {
    hide Step, Possible, Decode, SbStores;
    if ops != [] {
      StepValid(c, s, ops[0]);
      if WritesBus(c, s, ops[0]) {
        NoStores(c, s.sb, ops[0].value);
      }
      HartsOnly(c, Step(c, s, ops[0]), ops[1..]);
    }
  }

  /** In such a run data and program buffer are what the stores of harts alone make of them. */
  lemma ProtectedFromDebugger(c: Config, s: State, ops: seq<Op>)
    requires Valid(c, s) && Runnable(c, s, ops) && BusyBefore(c, s, ops) && Aloof(c, s, ops)
    ensures var t, log := Run(c, s, ops).core, HartLog(c, ops);
            && t.data == DataStores(s.core.data, log) && t.progbuf == ProgbufStores(s.core.progbuf, log)
            && t.code == s.core.code
  {
    hide Run, Log, Valid, Runnable, BusyBefore, Aloof;
    RunProtected(c, s, ops);
    HartsOnly(c, s, ops);
  }

  // ---- the end of a command

  /** A command has just been given to hart `h`. */
  predicate Launched(k: Core, h: nat) {
    k.busy && k.hartsel == h && h < |k.go| && k.go[h] && !k.completed
  }

  /** As it is after every command that starts. */
  lemma StartLaunches(c: Config, k: Core)
    requires Fit(c, k) && !k.busy && Perform(c, k).busy
    ensures Launched(Perform(c, k), k.hartsel) && Perform(c, k).rti == c.rti
  {
    hide AC.PlanOf, Field, Bit, Le32, WordAt;
    AC.CodeFits(c.csrAccess, Field(k.command, 0, 16), Field(k.command, 20, 3), Bit(k.command, 16));
  }

  /** No operation of the run resets the module or selects another hart. */
  predicate Steady(c: Config, s: State, ops: seq<Op>, h: nat)
    requires Valid(c, s) && Runnable(c, s, ops)
    decreases |ops|
  {
    ops == [] || (
      && !Resets(s, ops[0]) && Step(c, s, ops[0]).core.hartsel == h
      && (StepValid(c, s, ops[0]); Steady(c, Step(c, s, ops[0]), ops[1..], h)))
  }

  lemma {:induction false} SteadySplit(c: Config, s: State, ops: seq<Op>, h: nat, n: nat)
    requires Valid(c, s) && Runnable(c, s, ops) && Steady(c, s, ops, h) && n <= |ops|
    ensures Runnable(c, s, ops[..n]) && Steady(c, s, ops[..n], h)
    ensures Valid(c, Run(c, s, ops[..n])) && Runnable(c, Run(c, s, ops[..n]), ops[n..])
    ensures Steady(c, Run(c, s, ops[..n]), ops[n..], h)
    decreases |ops|
  {
    hide Step, Valid, Possible, Resets;
    RunSplit(c, s, ops, n);
    if n == 0 {
      assert ops[..0] == [] && ops[0..] == ops;
    } else {
      StepValid(c, s, ops[0]);
      SteadySplit(c, Step(c, s, ops[0]), ops[1..], h, n - 1);
      assert ops[1..][..n - 1] == ops[..n][1..] && ops[1..][n - 1..] == ops[n..] && ops[..n][0] == ops[0];
    }
  }

  lemma SteadyLast(c: Config, s: State, ops: seq<Op>, h: nat)
    requires Valid(c, s) && Runnable(c, s, ops) && Steady(c, s, ops, h) && ops != []
    ensures Runnable(c, s, Init(ops)) && Steady(c, s, Init(ops), h) && Valid(c, Run(c, s, Init(ops)))
    ensures !Resets(Run(c, s, Init(ops)), Last(ops)) && Possible(c, Run(c, s, Init(ops)), Last(ops))
    ensures Run(c, s, ops) == Step(c, Run(c, s, Init(ops)), Last(ops)) && Run(c, s, ops).core.hartsel == h
  {
    hide Step, Valid, Possible, Resets;
    SteadySplit(c, s, ops, h, |ops| - 1);
    RunLast(c, s, ops);
    assert ops[|ops| - 1..][0] == Last(ops);
  }

  /** The command was taken up in the name of hart `h`. */
  ghost predicate Taken(log: seq<Event>, h: nat) {
    exists i :: 0 <= i < |log| && log[i] == Going(h)
  }

  /** It was taken up, and hart `h` was said to have come back since. */
  ghost predicate Reported(log: seq<Event>, h: nat) {
    exists j :: 0 <= j < |log| && log[j] == Halting(h) && Taken(log[..j], h)
  }

  function Cycles(log: seq<Event>): nat {
    if log == [] then 0 else Cycles(Init(log)) + if Last(log).Cycle? then 1 else 0
  }

  /** Event `n` is an idle cycle after the report, with those asked for all passed. */
  ghost predicate FinishesAt(log: seq<Event>, n: nat, h: nat, rti: nat)
    requires n < |log|
  {
    log[n] == Cycle && Reported(log[..n], h) && Cycles(log[..n + 1]) >= rti
  }

  ghost predicate Finished(log: seq<Event>, h: nat, rti: nat) {
    exists n :: 0 <= n < |log| && FinishesAt(log, n, h, rti)
  }

  lemma TakenLast(log: seq<Event>, e: Event, h: nat)
    ensures Taken(log + [e], h) <==> Taken(log, h) || e == Going(h)
  {
    var all := log + [e];
    assert all[|log|] == e;
    if Taken(log, h) {
      var i :| 0 <= i < |log| && log[i] == Going(h);
      assert all[i] == Going(h);
    }
    if Taken(all, h) && e != Going(h) {
      var i :| 0 <= i < |all| && all[i] == Going(h);
      assert log[i] == Going(h);
    }
  }

  lemma ReportedLast(log: seq<Event>, e: Event, h: nat)
    ensures Reported(log + [e], h) <==> Reported(log, h) || (e == Halting(h) && Taken(log, h))
  {
    hide Taken;
    var all := log + [e];
    assert all[|log|] == e && all[..|log|] == log;
    if Reported(log, h) {
      var j :| 0 <= j < |log| && log[j] == Halting(h) && Taken(log[..j], h);
      assert all[j] == Halting(h) && all[..j] == log[..j];
    }
    if Reported(all, h) {
      var j :| 0 <= j < |all| && all[j] == Halting(h) && Taken(all[..j], h);
      if j < |log| {
        assert log[j] == Halting(h) && log[..j] == all[..j];
      }
    }
  }

  lemma CyclesLast(log: seq<Event>, e: Event)
    ensures Cycles(log + [e]) == Cycles(log) + if e == Cycle then 1 else 0
  {
    assert Init(log + [e]) == log;
  }

  lemma FinishesBefore(a: seq<Event>, b: seq<Event>, n: nat, h: nat, rti: nat)
    requires n < |a|
    ensures FinishesAt(a + b, n, h, rti) <==> FinishesAt(a, n, h, rti)
  {
    hide Reported, Cycles;
    assert (a + b)[..n] == a[..n] && (a + b)[..n + 1] == a[..n + 1];
  }

  /** What is finished stays so, and only an idle cycle finishes. */
  lemma FinishedConcat(a: seq<Event>, b: seq<Event>, h: nat, rti: nat)
    ensures Finished(a, h, rti) ==> Finished(a + b, h, rti)
    ensures Cycle !in b && Finished(a + b, h, rti) ==> Finished(a, h, rti)
  {
    hide FinishesAt;
    forall n | 0 <= n < |a|
      ensures FinishesAt(a + b, n, h, rti) <==> FinishesAt(a, n, h, rti)
    {
      FinishesBefore(a, b, n, h, rti);
    }
    if Cycle !in b && Finished(a + b, h, rti) {
      var n :| 0 <= n < |a + b| && FinishesAt(a + b, n, h, rti);
      FinishesOnCycle(a + b, n, h, rti);
      assert forall m :: |a| <= m < |a + b| ==> (a + b)[m] in b;
    }
  }

  lemma FinishesOnCycle(log: seq<Event>, n: nat, h: nat, rti: nat)
    requires n < |log| && FinishesAt(log, n, h, rti)
    ensures log[n] == Cycle
  {
  }

  lemma FinishedLast(log: seq<Event>, h: nat, rti: nat)
    ensures Finished(log + [Cycle], h, rti) <==>
            Finished(log, h, rti) || (Reported(log, h) && Cycles(log) + 1 >= rti)
  {
    hide FinishesAt, Reported, Cycles;
    var all := log + [Cycle];
    assert FinishesAt(all, |log|, h, rti) <==> Reported(log, h) && Cycles(log) + 1 >= rti by {
      FinishesHere(log, h, rti);
    }
    forall n | 0 <= n < |log|
      ensures FinishesAt(all, n, h, rti) <==> FinishesAt(log, n, h, rti)
    {
      FinishesBefore(log, [Cycle], n, h, rti);
    }
  }

  lemma FinishesHere(log: seq<Event>, h: nat, rti: nat)
    ensures FinishesAt(log + [Cycle], |log|, h, rti) <==> Reported(log, h) && Cycles(log) + 1 >= rti
  {
    hide Reported, Cycles;
    var all := log + [Cycle];
    assert all[..|log|] == log && all[..|log| + 1] == all;
    CyclesLast(log, Cycle);
  }

  /** The flags of the module tell how far a command is, given what was heard since
      it was given to hart `h`. */
  ghost predicate Progress(k: Core, log: seq<Event>, h: nat, rti: nat) {
    && k.busy && k.hartsel == h && h < |k.go|
    && (k.go[h] <==> !Taken(log, h)) && (k.completed <==> Reported(log, h))
    && k.rti == if Cycles(log) >= rti then 0 else rti - Cycles(log)
  }

  lemma ProgressOne(c: Config, k: Core, log: seq<Event>, e: Event, h: nat, rti: nat)
    requires Fit(c, k) && Defined(c, e) && Progress(k, log, h, rti) && !Finished(log + [e], h, rti)
    ensures Progress(Hear(k, e), log + [e], h, rti)
  {
    TakenLast(log, e, h);
    ReportedLast(log, e, h);
    CyclesLast(log, e);
    if e == Cycle {
      FinishedLast(log, h, rti);
    }
    hide Taken, Reported, Cycles, Finished, Patch, Pow2;
  }

  lemma {:induction false} ProgressAll(c: Config, k: Core, log: seq<Event>, es: seq<Event>, h: nat, rti: nat)
    requires Fit(c, k) && (forall e :: e in es ==> Defined(c, e))
    requires Progress(k, log, h, rti) && !Finished(log + es, h, rti)
    ensures Progress(HearAll(k, es), log + es, h, rti)
    decreases |es|
  {
    hide Fit, Defined, Progress, Finished, Hear;
    if es == [] {
      assert log + es == log;
    } else {
      assert log + es == log + [es[0]] + es[1..];
      FinishedConcat(log + [es[0]], es[1..], h, rti);
      ProgressOne(c, k, log, es[0], h, rti);
      HearKeepsOne(c, k, es[0]);
      ProgressAll(c, Hear(k, es[0]), log + [es[0]], es[1..], h, rti);
    }
  }

  lemma PossibleDefined(c: Config, s: State, op: Op)
    requires Valid(c, s) && Possible(c, s, op)
    ensures Fit(c, s.core) && forall e :: e in Heard(c, s, op) ==> Defined(c, e)
  {
  }

  lemma ProgressSame(k: Core, t: Core, log: seq<Event>, h: nat, rti: nat)
    requires Progress(k, log, h, rti) && SameCommand(k, t) && t.busy == k.busy && t.hartsel == h
    ensures Progress(t, log, h, rti)
  {
  }

  /** Until a command on a hart that stays selected is finished, it is in progress,
      and the flags of the module tell how far it is. */
  lemma {:induction false} InProgress(c: Config, s: State, ops: seq<Op>, h: nat)
    requires Valid(c, s) && Runnable(c, s, ops) && Launched(s.core, h) && Steady(c, s, ops, h)
    requires !Finished(Log(c, s, ops), h, s.core.rti)
    ensures Progress(Run(c, s, ops).core, Log(c, s, ops), h, s.core.rti)
    decreases |ops|
  {
    hide Step, Valid, Possible, Resets, Finished, Reported, Taken, Heard, Defined, Fit, SameCommand;
    if ops == [] {
      NothingYet(h);
    } else {
      SteadyLast(c, s, ops, h);
      LogLast(c, s, ops);
      var rti, op, log := s.core.rti, Last(ops), Log(c, s, Init(ops));
      var t := Run(c, s, Init(ops));
      var es := Heard(c, t, op);
      FinishedConcat(log, es, h, rti);
      InProgress(c, s, Init(ops), h);
      hide Progress;
      PossibleDefined(c, t, op);
      ProgressAll(c, t.core, log, es, h, rti);
      ProgressBusy(t.core, log, h, rti);
      BusyStep(c, t, op);
      ProgressSame(HearAll(t.core, es), Run(c, s, ops).core, log + es, h, rti);
    }
  }

  lemma ProgressBusy(k: Core, log: seq<Event>, h: nat, rti: nat)
    requires Progress(k, log, h, rti)
    ensures k.busy
  {
  }

  lemma NothingYet(h: nat)
    ensures !Taken([], h) && !Reported([], h)
  {
  }

  lemma InShape(c: Config, k: Core)
    requires Fit(c, k)
    ensures |k.go| == FLAGS && k.hartsel < FLAGS
  {
  }

  /** Idle cycles are heard as such, and nothing else is. */
  lemma HeardCycle(c: Config, s: State, op: Op)
    requires Valid(c, s)
    ensures if op.Idle? then Heard(c, s, op) == [Cycle] else Cycle !in Heard(c, s, op)
  {
    hide Decode, BusEvents, Pow2, Payload;
    match op
    case HartStore(at, bytes) =>
      NoCycle(c, at, bytes);
    case DmiWrite(a, v, _) =>
      NoCycle(c, Target(s.sb), Payload(s.sb.(data := s.sb.data[0 := v])));
    case _ =>
  }

  /** A command ends exactly when it was taken up in the name of its hart, that
      hart was said to come back after that, and an idle cycle follows with all
      those asked for passed; this for every run in which the hart stays selected
      and the module is not reset, up to the first operation that finishes the command. */
  lemma CommandEnds(c: Config, s: State, ops: seq<Op>, h: nat)
    requires Valid(c, s) && Runnable(c, s, ops) && Launched(s.core, h) && Steady(c, s, ops, h)
    requires ops != [] ==> Runnable(c, s, Init(ops)) && !Finished(Log(c, s, Init(ops)), h, s.core.rti)
    ensures Run(c, s, ops).core.busy <==> !Finished(Log(c, s, ops), h, s.core.rti)
  {
    hide Step, Valid, Possible, Resets, Finished, Reported, Taken, Heard, SameCommand;
    if Finished(Log(c, s, ops), h, s.core.rti) {
      FinishedSome(h, s.core.rti);
      SteadyLast(c, s, ops, h);
      LogLast(c, s, ops);
      var rti, op, log := s.core.rti, Last(ops), Log(c, s, Init(ops));
      var t := Run(c, s, Init(ops));
      HeardCycle(c, t, op);
      FinishedConcat(log, Heard(c, t, op), h, rti);
      FinishedLast(log, h, rti);
      InProgress(c, s, Init(ops), h);
      BusyStep(c, t, op);
      HearOne(t.core, Cycle);
    } else {
      InProgress(c, s, ops, h);
    }
  }

  lemma FinishedSome(h: nat, rti: nat)
    ensures !Finished([], h, rti)
  {
  }

  // ---- whichever hart is selected

  /** No operation of the run resets the module. */
  predicate NoReset(c: Config, s: State, ops: seq<Op>)
    requires Valid(c, s) && Runnable(c, s, ops)
    decreases |ops|
  {
    ops == [] || (!Resets(s, ops[0]) && (StepValid(c, s, ops[0]); NoReset(c, Step(c, s, ops[0]), ops[1..])))
  }

  lemma {:induction false} NoResetSplit(c: Config, s: State, ops: seq<Op>, n: nat)
    requires Valid(c, s) && Runnable(c, s, ops) && NoReset(c, s, ops) && n <= |ops|
    ensures Runnable(c, s, ops[..n]) && NoReset(c, s, ops[..n])
    ensures Valid(c, Run(c, s, ops[..n])) && Runnable(c, Run(c, s, ops[..n]), ops[n..])
    ensures NoReset(c, Run(c, s, ops[..n]), ops[n..])
    decreases |ops|
  {
    hide Step, Valid, Possible, Resets;
    RunSplit(c, s, ops, n);
    if n == 0 {
      assert ops[..0] == [] && ops[0..] == ops;
    } else {
      StepValid(c, s, ops[0]);
      NoResetSplit(c, Step(c, s, ops[0]), ops[1..], n - 1);
      assert ops[1..][..n - 1] == ops[..n][1..] && ops[1..][n - 1..] == ops[n..] && ops[..n][0] == ops[0];
    }
  }

  /** Among what is heard, the selected hart is said to come back with no command waiting for it. */
  predicate Reports(k: Core, es: seq<Event>)
    requires k.hartsel < |k.go|
    decreases |es|
  {
    es != [] && (
      || (es[0] == Halting(k.hartsel) && !k.go[k.hartsel])
      || (HearShape(k, es[0]); Reports(Hear(k, es[0]), es[1..])))
  }

  lemma HearShape(k: Core, e: Event)
    ensures |Hear(k, e).go| == |k.go| && Hear(k, e).hartsel == k.hartsel
  {
    hide Patch;
  }

  lemma {:induction false} HearCompletes(c: Config, k: Core, es: seq<Event>)
    requires Fit(c, k) && forall e :: e in es ==> Defined(c, e)
    ensures k.hartsel < |k.go| && (HearAll(k, es).completed <==> k.completed || Reports(k, es))
    ensures Cycle !in es ==> HearAll(k, es).busy == k.busy && HearAll(k, es).rti == k.rti
    decreases |es|
  {
    hide Fit, Defined, Hear;
    InShape(c, k);
    if es != [] {
      HearKeepsOne(c, k, es[0]);
      CompletesOne(c, k, es[0]);
      HearCompletes(c, Hear(k, es[0]), es[1..]);
    }
  }

  lemma CompletesOne(c: Config, k: Core, e: Event)
    requires Fit(c, k) && Defined(c, e)
    ensures k.hartsel < |k.go|
    ensures Hear(k, e).completed <==> k.completed || (e == Halting(k.hartsel) && !k.go[k.hartsel])
    ensures e != Cycle ==> Hear(k, e).busy == k.busy && Hear(k, e).rti == k.rti
  {
    hide Patch, Pow2;
  }

  /** Some hart was said to come back while it was selected and had no command waiting. */
  ghost predicate SomeReport(c: Config, s: State, ops: seq<Op>)
    requires Valid(c, s) && Runnable(c, s, ops)
    decreases |ops|
  {
    ops != [] && (
      RunLast(c, s, ops);
      var t := Run(c, s, Init(ops));
      InShape(c, t.core);
      SomeReport(c, s, Init(ops)) || Reports(t.core, Heard(c, t, Last(ops))))
  }

  /** The module counts the command as finished. */
  ghost predicate Closed(c: Config, s: State, ops: seq<Op>)
    requires Valid(c, s) && Runnable(c, s, ops)
    decreases |ops|
  {
    ops != [] && (
      RunLast(c, s, ops);
      || Closed(c, s, Init(ops))
      || (Last(ops) == Idle && SomeReport(c, s, Init(ops)) && Cycles(Log(c, s, ops)) >= s.core.rti))
  }

  lemma {:induction false} CyclesConcat(a: seq<Event>, b: seq<Event>)
    ensures Cycle !in b ==> Cycles(a + b) == Cycles(a)
    ensures b == [Cycle] ==> Cycles(a + b) == Cycles(a) + 1
    decreases |b|
  {
    hide Cycles;
    if b == [] {
      assert a + b == a;
    } else {
      CyclesConcat(a, Init(b));
      assert a + b == a + Init(b) + [Last(b)];
      CyclesLast(a + Init(b), Last(b));
      assert b == [Cycle] ==> a + Init(b) == a;
    }
  }

  /** Over every run without a reset, whatever is selected meanwhile: a command is
      in progress until some hart, not necessarily its own, was said to come back
      while selected, and the idle cycles have passed. */
  lemma {:induction false} InProgressAny(c: Config, s: State, ops: seq<Op>)
    requires Valid(c, s) && Runnable(c, s, ops) && s.core.busy && !s.core.completed
    requires NoReset(c, s, ops) && !Closed(c, s, ops)
    ensures var t, n := Run(c, s, ops).core, Cycles(Log(c, s, ops));
            && t.busy && (t.completed <==> SomeReport(c, s, ops))
            && t.rti == if n >= s.core.rti then 0 else s.core.rti - n
    decreases |ops|
  {
    hide Step, Valid, Possible, Resets, Heard, Cycles, Fit, Defined, Reports, HearAll, Hear;
    if ops == [] {
      NoCycles();
    } else {
      NoResetLast(c, s, ops);
      InProgressAny(c, s, Init(ops));
      AnyStep(c, s, ops);
    }
  }

  lemma NoCycles()
    ensures Cycles([]) == 0
  {
  }

  /** The last operation of such a run. */
  lemma AnyStep(c: Config, s: State, ops: seq<Op>)
    requires Valid(c, s) && Runnable(c, s, ops) && NoReset(c, s, ops) && ops != []
    requires Runnable(c, s, Init(ops)) && Run(c, s, Init(ops)).core.busy
    ensures var k, t, op := Run(c, s, Init(ops)), Run(c, s, ops).core, Last(ops);
            && Valid(c, k) && k.core.hartsel < |k.core.go|
            && (t.completed <==> k.core.completed || Reports(k.core, Heard(c, k, op)))
            && t.rti == (if op.Idle? && k.core.rti > 0 then k.core.rti - 1 else k.core.rti)
            && (t.busy <==> !(op.Idle? && k.core.rti <= 1 && k.core.completed))
            && Cycles(Log(c, s, ops)) == Cycles(Log(c, s, Init(ops))) + if op.Idle? then 1 else 0
  {
    hide Step, Valid, Possible, Resets, Heard, Cycles, Fit, Defined, Reports, HearAll, Hear;
    NoResetLast(c, s, ops);
    LogLast(c, s, ops);
    var k, op := Run(c, s, Init(ops)), Last(ops);
    PossibleDefined(c, k, op);
    InShape(c, k.core);
    HeardCycle(c, k, op);
    HearCompletes(c, k.core, Heard(c, k, op));
    CyclesConcat(Log(c, s, Init(ops)), Heard(c, k, op));
    BusyStep(c, k, op);
    HearOne(k.core, Cycle);
  }

  lemma NoResetLast(c: Config, s: State, ops: seq<Op>)
    requires Valid(c, s) && Runnable(c, s, ops) && NoReset(c, s, ops) && ops != []
    ensures Runnable(c, s, Init(ops)) && NoReset(c, s, Init(ops)) && Valid(c, Run(c, s, Init(ops)))
    ensures !Resets(Run(c, s, Init(ops)), Last(ops)) && Possible(c, Run(c, s, Init(ops)), Last(ops))
    ensures Run(c, s, ops) == Step(c, Run(c, s, Init(ops)), Last(ops))
  {
    hide Step, Valid, Possible, Resets;
    NoResetSplit(c, s, ops, |ops| - 1);
    RunLast(c, s, ops);
    assert ops[|ops| - 1..][0] == Last(ops);
  }

  lemma CommandEndsAny(c: Config, s: State, ops: seq<Op>)
    requires Valid(c, s) && Runnable(c, s, ops) && s.core.busy && !s.core.completed && NoReset(c, s, ops)
    requires ops != [] ==> Runnable(c, s, Init(ops)) && !Closed(c, s, Init(ops))
    ensures Run(c, s, ops).core.busy <==> !Closed(c, s, ops)
  {
    hide Step, Valid, Possible, Resets, Heard, Cycles, Reports;
    if Closed(c, s, ops) {
      NoResetLast(c, s, ops);
      InProgressAny(c, s, Init(ops));
      AnyStep(c, s, ops);
    } else {
      InProgressAny(c, s, ops);
    }
  }

  // ---- a command that ends without its hart

  const NO_ENV := Env(0, Trap, false)
  const TWO_HARTS := Config(0, false, 0, false, 0, false, true, false, 2, 1)

  /** Hart 1 is selected and comes back, and an idle cycle passes. */
  const OTHER_HART := [DmiWrite(DMI_DMCONTROL, 0x1_0001, NO_ENV), HartStore(ROM_HALTED, Le32(1)), Idle]

  /** Two halted harts, the first one selected, and nothing going on. */
  function Quiet(): State {
    State(Core(true, 0, true, 0, false, CMDERR_NONE, 0, 0, 0, seq(8, _ => 0), [],
               seq(AC.ABSTRACT_SIZE, _ => AC.Zero), 0, [true, true], seq(FLAGS, _ => false), 0, false,
               HartArray(false, 0, [false, false])),
          Sb(false, 0, false, false, 0, [0, 0, 0, 0], [0, 0, 0, 0]))
  }

  lemma Powers()
    ensures Pow2(0) == 1 && Pow2(1) == 2 && Pow2(2) == 4 && Pow2(3) == 8 && Pow2(6) == 64 && Pow2(8) == 256
    ensures Pow2(10) == 1024 && Pow2(12) == 0x1000 && Pow2(15) == 0x8000 && Pow2(16) == 0x1_0000
    ensures Pow2(17) == 0x2_0000 && Pow2(20) == 0x10_0000 && Pow2(26) == 0x400_0000 && Pow2(29) == 0x2000_0000
  {
    forall i: nat | i < 30
      ensures Pow2(i + 1) == 2 * Pow2(i)
    {
      PowStep(i);
    }
    assert Pow2(4) == 16 && Pow2(5) == 32 && Pow2(7) == 128 && Pow2(9) == 512 && Pow2(11) == 0x800;
    assert Pow2(13) == 0x2000 && Pow2(14) == 0x4000 && Pow2(18) == 0x4_0000 && Pow2(19) == 0x8_0000;
    assert Pow2(21) == 0x20_0000 && Pow2(22) == 0x40_0000 && Pow2(23) == 0x80_0000 && Pow2(24) == 0x100_0000;
    assert Pow2(25) == 0x200_0000 && Pow2(27) == 0x800_0000 && Pow2(28) == 0x1000_0000;
  }

  lemma SelectsSecond()
    ensures Select(TWO_HARTS, 0x1_0001) == 1 && Bit(0x1_0001, 0) && !Bit(0, 17) && Field(0, 24, 8) == 0
    ensures !Bit(0x1_0001, 1) && !Bit(0x1_0001, 29)
  {
    hide Pow2;
    Powers();
  }

  /** The command on hart 0 waits, and hart 1 has none. */
  predicate Waiting(k: Core) {
    && Launched(k, 0) && |k.go| == FLAGS && !k.go[1] && k.rti == 0
    && k.dmactive && k.authenticated && !k.harts.hasel && |k.halted| == 2
  }

  lemma StepOne(s: State)
    requires Valid(TWO_HARTS, s) && Waiting(s.core)
    ensures Possible(TWO_HARTS, s, OTHER_HART[0])
    ensures Step(TWO_HARTS, s, OTHER_HART[0]) == s.(core := s.core.(hartsel := 1))
  {
    hide Perform, Pow2, Field, Select, Bit, Fit;
    SelectsSecond();
    assert AfterResets(TWO_HARTS, s.core.(hartsel := 1), 0x1_0001) == s.core.halted;
  }

  lemma SecondReports(s: State)
    requires Valid(TWO_HARTS, s)
    ensures Possible(TWO_HARTS, s, OTHER_HART[1]) && Decode(TWO_HARTS, ROM_HALTED, Le32(1)) == Halting(1)
  {
    hide Pow2, WordAt, Le32;
    WordOfLe(1);
    Powers();
  }

  lemma StepTwo(s: State)
    requires Valid(TWO_HARTS, s) && s.core.hartsel == 1 && |s.core.go| == FLAGS && !s.core.go[1] && |s.core.halted| == 2
    ensures Possible(TWO_HARTS, s, OTHER_HART[1])
    ensures Step(TWO_HARTS, s, OTHER_HART[1]) ==
            s.(core := s.core.(halted := s.core.halted[1 := true], completed := true))
  {
    hide Decode, Fit, Le32;
    SecondReports(s);
  }

  lemma OtherHart(s: State)
    requires Valid(TWO_HARTS, s) && Waiting(s.core)
    ensures Runnable(TWO_HARTS, s, OTHER_HART)
    ensures var t := Run(TWO_HARTS, s, OTHER_HART).core; !t.busy && t.go == s.core.go
  {
    var c, ops := TWO_HARTS, OTHER_HART;
    hide Le32, Fit, Select, Bit;
    StepOne(s);
    StepValid(c, s, ops[0]);
    var s1 := Step(c, s, ops[0]);
    StepTwo(s1);
    StepValid(c, s1, ops[1]);
    var s2 := Step(c, s1, ops[1]);
    assert Possible(c, s2, Idle);
    StepValid(c, s2, Idle);
    var s3 := Step(c, s2, Idle);
    assert !s3.core.busy && s3.core.go == s.core.go;
    hide Step, Valid, Possible;
    assert [Idle][1..] == [] && Runnable(c, s2, [Idle]) && Run(c, s2, [Idle]) == s3;
    assert ops[1..][0] == ops[1] && ops[1..][1..] == [Idle];
    assert Runnable(c, s1, ops[1..]) && Run(c, s1, ops[1..]) == s3;
  }

  lemma QuietStarts()
    ensures Valid(TWO_HARTS, Quiet()) && Possible(TWO_HARTS, Quiet(), DmiWrite(DMI_COMMAND, 0, NO_ENV))
    ensures var s := Step(TWO_HARTS, Quiet(), DmiWrite(DMI_COMMAND, 0, NO_ENV));
            Valid(TWO_HARTS, s) && Waiting(s.core)
  {
    Powers();
    SelectsSecond();
    hide Pow2, Field, Bit;
    StepValid(TWO_HARTS, Quiet(), DmiWrite(DMI_COMMAND, 0, NO_ENV));
  }

  /** A command for hart 0 is started, hart 1 is selected, comes back, and an idle
      cycle passes: the module is no longer busy, yet hart 0 has not even taken
      the command up. */
  lemma EndsWithoutItsHart()
    ensures Valid(TWO_HARTS, Quiet()) && Possible(TWO_HARTS, Quiet(), DmiWrite(DMI_COMMAND, 0, NO_ENV))
    ensures var s := Step(TWO_HARTS, Quiet(), DmiWrite(DMI_COMMAND, 0, NO_ENV));
            && Valid(TWO_HARTS, s) && Launched(s.core, 0) && Runnable(TWO_HARTS, s, OTHER_HART)
            && var t := Run(TWO_HARTS, s, OTHER_HART).core;
            !t.busy && |t.go| > 0 && t.go[0]
  {
    hide Valid, Runnable, Run, Step, Possible;
    QuietStarts();
    OtherHart(Step(TWO_HARTS, Quiet(), DmiWrite(DMI_COMMAND, 0, NO_ENV)));
  }

  // ---- the debugger in the place of a hart

  /** Bus mastering of words is supported, and its registers can be reached. */
  predicate Reachable(c: Config, s: State) {
    Valid(c, s) && c.busBits >= 32 && c.progbufsize <= 0x17 && s.core.authenticated
  }

  /** A word written to sbdata0 goes to the address in sbaddress0. */
  predicate Ready(c: Config, s: State) {
    && Reachable(c, s) && s.sb.access == 2 && s.sb.error == 0 && s.sb.address[1] == 0
    && !s.sb.readOnAddr && !s.sb.autoincrement
  }

  /** Words are chosen as the access size, errors are cleared, and the high part of the address is 0. */
  function SetUp(env: Env): seq<Op> {
    [DmiWrite(DMI_SBCS, 0x4_7000, env), DmiWrite(DMI_SBADDRESS0 + 1, 0, env)]
  }

  function Poke(at: u32, word: u32, env: Env): seq<Op> {
    [DmiWrite(DMI_SBADDRESS0, at, env), DmiWrite(DMI_SBDATA0, word, env)]
  }

  lemma RunTwo(c: Config, s: State, ops: seq<Op>)
    requires Valid(c, s) && |ops| == 2 && Possible(c, s, ops[0])
    requires Valid(c, Step(c, s, ops[0])) && Possible(c, Step(c, s, ops[0]), ops[1])
    ensures Runnable(c, s, ops) && Run(c, s, ops) == Step(c, Step(c, s, ops[0]), ops[1])
  {
    hide Step, Valid, Possible, Run, Runnable;
    var t, rest := Step(c, s, ops[0]), ops[1..];
    StepValid(c, t, ops[1]);
    assert rest[0] == ops[1] && rest[1..] == [];
    RunNone(c, Step(c, t, ops[1]));
    RunCons(c, t, rest);
    RunCons(c, s, ops);
  }

  lemma SbcsFields(error: bv3)
    ensures Field(0x4_7000, 17, 3) == 2 && !Bit(0x4_7000, 20) && !Bit(0x4_7000, 16)
    ensures Field(0x4_7000, 12, 3) == 7 && error & !(7 as bv3) == 0
  {
    hide Pow2;
    Powers();
  }

  lemma SetUpReady(c: Config, s: State, env: Env)
    requires Reachable(c, s)
    ensures Runnable(c, s, SetUp(env))
    ensures var t := Run(c, s, SetUp(env)); Ready(c, t) && t.core == s.core
  {
    var ops := SetUp(env);
    hide Fit, HearAll, SbStores, WriteCore;
    SbcsFields(s.sb.error);
    hide Field, Bit;
    StepValid(c, s, ops[0]);
    var t := Step(c, s, ops[0]);
    assert t.core == s.core && t.sb.access == 2 && t.sb.error == 0 && !t.sb.readOnAddr && !t.sb.autoincrement;
    StepValid(c, t, ops[1]);
    RunTwo(c, s, ops);
  }

  lemma PokeEvents(c: Config, b: Sb, at: u32, word: u32)
    requires SbValid(b) && c.busBits >= 32 && b.access == 2 && b.error == 0 && b.address[0] == at && b.address[1] == 0
    requires at % 4 == 0 && at < PAGE_END
    ensures SbStores(c, b, word) == [Decode(c, at, Le32(word))]
  {
    Powers();
    hide Pow2, Decode, Le32, ByteEvents;
  }

  /** The debugger stores a word as a hart would. */
  lemma PokeStores(c: Config, s: State, at: u32, word: u32, env: Env)
    requires Ready(c, s) && at % 4 == 0 && at < PAGE_END && Defined(c, Decode(c, at, Le32(word)))
    ensures Runnable(c, s, Poke(at, word, env))
    ensures var t := Run(c, s, Poke(at, word, env));
            Ready(c, t) && t.core == Hear(s.core, Decode(c, at, Le32(word)))
  {
    var ops := Poke(at, word, env);
    hide Fit, WriteCore, Decode, Defined, Hear, Le32, SbLoaded;
    StepValid(c, s, ops[0]);
    var t := Step(c, s, ops[0]);
    assert t == s.(sb := s.sb.(address := s.sb.address[0 := at]));
    PokeEvents(c, t.sb, at, word);
    HearOne(s.core, Decode(c, at, Le32(word)));
    HearSame(s.core, Decode(c, at, Le32(word)));
    hide SbStores, HearAll;
    StepValid(c, t, ops[1]);
    RunTwo(c, s, ops);
  }

  lemma HearSame(k: Core, e: Event)
    ensures Hear(k, e).authenticated == k.authenticated
  {
    hide Patch;
  }

  lemma PokeDecodes(c: Config, word: u32)
    requires c.progbufsize <= 0x17
    ensures Decode(c, DATA_START, Le32(word)) == DataStore(0, Le32(word))
    ensures Decode(c, ROM_GOING, Le32(word)) == Going(word) && Decode(c, ROM_HALTED, Le32(word)) == Halting(word)
  {
    hide WordAt, Le32;
    WordOfLe(word);
  }

  lemma {:induction false} RunConcat(c: Config, s: State, a: seq<Op>, b: seq<Op>)
    requires Valid(c, s) && Runnable(c, s, a) && Valid(c, Run(c, s, a)) && Runnable(c, Run(c, s, a), b)
    ensures Runnable(c, s, a + b) && Run(c, s, a + b) == Run(c, Run(c, s, a), b)
    decreases |a|
  {
    hide Step, Valid, Possible;
    if a == [] {
      assert a + b == b;
    } else {
      StepValid(c, s, a[0]);
      RunConcat(c, Step(c, s, a[0]), a[1..], b);
      assert (a + b)[0] == a[0] && (a + b)[1..] == a[1..] + b;
    }
  }

  /** While a command is in progress the debugger changes the data by a store over
      the system bus, from whatever state the bus registers are in. */
  lemma DataOverwritten(c: Config, s: State, word: u32, env: Env)
    requires Reachable(c, s) && s.core.busy
    ensures var ops := SetUp(env) + Poke(DATA_START, word, env);
            && Runnable(c, s, ops)
            && var t := Run(c, s, ops).core;
            t.busy && t.data == Patch(s.core.data, 0, Le32(word))
  {
    hide Run, Runnable, SetUp, Poke, Fit, Le32, Patch, Decode;
    SetUpReady(c, s, env);
    var t := Run(c, s, SetUp(env));
    PokeDecodes(c, word);
    DataFits(c, s.core);
    PokeStores(c, t, DATA_START, word, env);
    RunConcat(c, s, SetUp(env), Poke(DATA_START, word, env));
  }

  lemma DataFits(c: Config, k: Core)
    requires Fit(c, k)
    ensures |k.data| == 8 && |k.halted| <= |k.go| == FLAGS && k.hartsel < |k.halted| == Pow2(c.hartselLen)
  {
  }

  /** Setting up the bus, then the stores of a hart that takes the command up and comes back. */
  function Impersonate(hart: u32, env: Env): seq<Op> {
    SetUp(env) + Poke(ROM_GOING, hart, env) + Poke(ROM_HALTED, hart, env) + [Idle]
  }

  lemma ReportsInItsPlace(c: Config, s: State, hart: u32, env: Env)
    requires Ready(c, s) && s.core.busy && hart == s.core.hartsel
    ensures var ops := Poke(ROM_GOING, hart, env) + Poke(ROM_HALTED, hart, env);
            && Runnable(c, s, ops)
            && var t := Run(c, s, ops);
            Ready(c, t) && t.core.busy && t.core.completed && t.core.rti == s.core.rti
  {
    hide Run, Runnable, Poke, Fit, Le32, Decode;
    PokeDecodes(c, hart);
    DataFits(c, s.core);
    PokeStores(c, s, ROM_GOING, hart, env);
    var t := Run(c, s, Poke(ROM_GOING, hart, env));
    PokeStores(c, t, ROM_HALTED, hart, env);
    RunConcat(c, s, Poke(ROM_GOING, hart, env), Poke(ROM_HALTED, hart, env));
  }

  /** With word accesses on the bus a debugger ends a command by itself: no hart
      does anything in the course of this run. */
  lemma EndsByDebugger(c: Config, s: State, env: Env)
    requires Reachable(c, s) && s.core.busy && s.core.rti <= 1
    ensures var ops := Impersonate(s.core.hartsel, env);
            Runnable(c, s, ops) && !Run(c, s, ops).core.busy && forall op :: op in ops ==> !op.HartStore?
  {
    hide Run, Runnable, Fit;
    DataFits(c, s.core);
    var h, stores := s.core.hartsel, Poke(ROM_GOING, s.core.hartsel, env) + Poke(ROM_HALTED, s.core.hartsel, env);
    SetUpReady(c, s, env);
    var t := Run(c, s, SetUp(env));
    ReportsInItsPlace(c, t, h, env);
    var u := Run(c, t, stores);
    RunConcat(c, s, SetUp(env), stores);
    IdleRuns(c, u);
    RunConcat(c, s, SetUp(env) + stores, [Idle]);
    assert SetUp(env) + stores + [Idle] == Impersonate(h, env);
  }

  lemma IdleRuns(c: Config, s: State)
    requires Valid(c, s)
    ensures Runnable(c, s, [Idle]) && Run(c, s, [Idle]).core == RunIdle(s.core)
  {
    StepValid(c, s, Idle);
    assert [Idle][1..] == [];
  }
}
