/**
  A closed-form account of the schedule `process_while` prints.

  Instead of countdowns that tick down cycle by cycle, the reference keeps
  for every register the absolute cycle from which it is free. An
  instruction issues at the first cycle that is no earlier than the cycle
  after the previous issue and at which its first source is free and its
  second source is at most one cycle short of free; it then makes its
  destination free `Latency` cycles later. `RunMatchesTimed` shows that the
  cycle-by-cycle simulation prints exactly this schedule, and the remaining
  lemmas prove what the schedule guarantees.
*/
module Schedule {
  import opened Pipeline

  /** `x` if it is positive, zero otherwise. */
  function Pos(x: int): int
  {
    if x > 0 then x else 0
  }

  function Max(a: int, b: int): int
  {
    if a >= b then a else b
  }

  /** The countdown table `reg`, read at cycle `now`, shows for every
      register how long it still has to wait until cycle `free[k]`. */
  predicate Tracks(reg: seq<int>, free: seq<int>, now: int)
  {
    && |reg| == RegisterCount && |free| == RegisterCount
    && forall k :: 0 <= k < RegisterCount ==> reg[k] == Pos(free[k] - now)
  }

  /** The first cycle at which the operands of `i` are ready: the first
      source must be free, the second may be one cycle short of free. */
  function ReadyAt(free: seq<int>, i: Instr): int
    requires |free| == RegisterCount
  {
    Max(free[i.src1], free[i.src2] - 1)
  }

  /** The reference schedule of `pending`, none of which may issue before
      cycle `earliest`: each instruction is printed with one plus the cycle
      in which it issues, in program order. */
  function Timed(free: seq<int>, pending: seq<Instr>, earliest: nat): (r: seq<Issued>)
    requires |free| == RegisterCount
    ensures |r| == |pending|
    decreases |pending|
  {
    if pending == [] then []
    else
      var i := pending[0];
      var t: nat := Max(earliest, ReadyAt(free, i));
      [Issued(i, t + 1)] + Timed(free[i.dst := t + Latency], pending[1..], t + 1)
  }

  /** The absolute cycle at which each register of `m` becomes free. */
  function Deadlines(m: Machine): (free: seq<int>)
    requires |m.register| == RegisterCount
    ensures |free| == RegisterCount
    ensures NonNegative(m.register) ==> Tracks(m.register, free, m.cycle)
  {
    seq(RegisterCount, k requires 0 <= k < RegisterCount => m.cycle + m.register[k])
  }

  /** `can_execute` is exactly the readiness test on absolute times. */
  lemma CanExecuteWhenReady(reg: seq<int>, free: seq<int>, now: int, i: Instr)
    requires Tracks(reg, free, now)
    ensures CanExecute(reg, i) <==> ReadyAt(free, i) <= now
  {
  }

  /** A table that tracks absolute times has no negative countdown. */
  lemma TracksNonNegative(reg: seq<int>, free: seq<int>, now: int)
    requires Tracks(reg, free, now)
    ensures NonNegative(reg)
  {
    forall k | 0 <= k < |reg|
      ensures reg[k] >= 0
    {
      assert reg[k] == Pos(free[k] - now);
    }
  }

  /** An issue at cycle `now` makes the destination free `Latency` cycles
      later, and the countdowns follow the absolute times into the next
      cycle. */
  lemma TracksIssue(m: Machine, free: seq<int>)
    requires Tracks(m.register, free, m.cycle) && m.pending != []
    requires ReadyAt(free, m.pending[0]) <= m.cycle
    ensures CanExecute(m.register, m.pending[0]) && NonNegative(m.register)
    ensures Tracks(Advance(TryIssue(m)).register, free[m.pending[0].dst := m.cycle + Latency], m.cycle + 1)
  {
    var i := m.pending[0];
    TracksNonNegative(m.register, free, m.cycle);
    IssueSpec(m);
    TickSpec(TryIssue(m).register);
    CanExecuteWhenReady(m.register, free, m.cycle, i);
  }

  /** A stall leaves the absolute times as they are; the countdowns follow
      them into the next cycle. */
  lemma TracksStall(m: Machine, free: seq<int>)
    requires Tracks(m.register, free, m.cycle) && m.pending != []
    requires ReadyAt(free, m.pending[0]) > m.cycle
    ensures !CanExecute(m.register, m.pending[0]) && NonNegative(m.register)
    ensures Tracks(Advance(TryIssue(m)).register, free, m.cycle + 1)
  {
    TracksNonNegative(m.register, free, m.cycle);
    IssueSpec(m);
    TickSpec(TryIssue(m).register);
    CanExecuteWhenReady(m.register, free, m.cycle, m.pending[0]);
  }

  /** The reference schedule when the front instruction issues at cycle
      `earliest`. */
  lemma TimedIssue(free: seq<int>, pending: seq<Instr>, earliest: nat)
    requires |free| == RegisterCount && pending != []
    requires ReadyAt(free, pending[0]) <= earliest
    ensures Timed(free, pending, earliest)
         == [Issued(pending[0], earliest + 1)]
            + Timed(free[pending[0].dst := earliest + Latency], pending[1..], earliest + 1)
  {
  }

  /** The reference schedule when the front instruction is not ready at
      cycle `earliest`: nothing changes by starting a cycle later. */
  lemma TimedStall(free: seq<int>, pending: seq<Instr>, earliest: nat)
    requires |free| == RegisterCount && pending != []
    requires ReadyAt(free, pending[0]) > earliest
    ensures Timed(free, pending, earliest) == Timed(free, pending, earliest + 1)
  {
  }

  /** Appending a printed line to the log on one side and to the schedule
      on the other keeps the two in agreement. */
  lemma AppendLine(log: seq<Issued>, sched: seq<Issued>, sched': seq<Issued>,
                   printed: seq<Issued>, line: seq<Issued>)
    requires sched == line + sched'
    ensures log == (printed + line) + sched' ==> log == printed + sched
  {
    assert (printed + line) + sched' == printed + (line + sched');
  }

  /** If the simulation agrees with the reference after an issuing
      iteration, it agrees before it. */
  lemma IssueAgrees(m: Machine, free: seq<int>, printed: seq<Issued>)
    requires |m.register| == RegisterCount && NonNegative(m.register) && |free| == RegisterCount
    requires m.pending != [] && CanExecute(m.register, m.pending[0])
    requires ReadyAt(free, m.pending[0]) <= m.cycle
    ensures var next := Advance(TryIssue(m));
      var line := [Issued(m.pending[0], m.cycle + 1)];
      var free' := free[m.pending[0].dst := m.cycle + Latency];
      Run(next, printed + line).log == (printed + line) + Timed(free', next.pending, next.cycle) ==>
        Run(m, printed).log == printed + Timed(free, m.pending, m.cycle)
  {
    var i := m.pending[0];
    var free' := free[i.dst := m.cycle + Latency];
    var line := [Issued(i, m.cycle + 1)];
    TimedIssue(free, m.pending, m.cycle);
    RunIssues(m, printed);
    var next := Advance(TryIssue(m));
    var log := Run(m, printed).log;
    var log' := Run(next, printed + line).log;
    var sched := Timed(free, m.pending, m.cycle);
    var sched' := Timed(free', next.pending, next.cycle);
    assert log == log';
    assert sched == line + sched';
    AppendLine(log, sched, sched', printed, line);
  }

  /** If the simulation agrees with the reference after a stalled
      iteration, it agrees before it. */
  lemma StallAgrees(m: Machine, free: seq<int>, printed: seq<Issued>)
    requires |m.register| == RegisterCount && NonNegative(m.register) && |free| == RegisterCount
    requires m.pending != [] && !CanExecute(m.register, m.pending[0])
    requires ReadyAt(free, m.pending[0]) > m.cycle
    ensures var next := Advance(TryIssue(m));
      && next.pending == m.pending && Backlog(next) < Backlog(m)
      && (Run(next, printed).log == printed + Timed(free, next.pending, next.cycle) ==>
          Run(m, printed).log == printed + Timed(free, m.pending, m.cycle))
  {
    TimedStall(free, m.pending, m.cycle);
    RunStalls(m, printed);
  }

  /** The simulation prints the reference schedule after what was printed
      before. */
  lemma {:induction false} RunMatchesTimed(m: Machine, free: seq<int>, printed: seq<Issued>)
    requires Tracks(m.register, free, m.cycle)
    ensures Run(m, printed).log == printed + Timed(free, m.pending, m.cycle)
    decreases |m.pending|, Backlog(m)
  {
    if m.pending != [] {
      var i := m.pending[0];
      var next := Advance(TryIssue(m));
      if ReadyAt(free, i) <= m.cycle {
        TracksIssue(m, free);
        IssueAgrees(m, free, printed);
        RunMatchesTimed(next, free[i.dst := m.cycle + Latency], printed + [Issued(i, m.cycle + 1)]);
      } else {
        TracksStall(m, free);
        StallAgrees(m, free, printed);
        RunMatchesTimed(next, free, printed);
      }
    }
  }

  /** Everything `process_while` prints, from any state whose countdowns are
      not negative, is the reference schedule of its pending list. */
  lemma ScheduleOfRun(m: Machine)
    requires |m.register| == RegisterCount && NonNegative(m.register)
    ensures Run(m, []).log == Timed(Deadlines(m), m.pending, m.cycle)
  {
    RunMatchesTimed(m, Deadlines(m), []);
  }

  /** A freshly built pipeliner prints the reference schedule that starts
      with every register free at cycle 0. */
  lemma ProgramSchedule(instrs: seq<Instr>)
    ensures Run(Initial(instrs), []).log == Timed(seq(RegisterCount, k => 0), instrs, 0)
  {
    var m := Initial(instrs);
    ScheduleOfRun(m);
    assert Deadlines(m) == seq(RegisterCount, k => 0);
  }

  /** Issue cycles come after `earliest` and strictly increase: one
      instruction per cycle at most. */
  lemma {:induction false} TimedIncreasing(free: seq<int>, pending: seq<Instr>, earliest: nat)
    requires |free| == RegisterCount
    ensures forall k :: 0 <= k < |pending| ==> Timed(free, pending, earliest)[k].cycle > earliest
    ensures forall j, k :: 0 <= j < k < |pending| ==>
              Timed(free, pending, earliest)[j].cycle < Timed(free, pending, earliest)[k].cycle
    decreases |pending|
  {
    if pending != [] {
      var i := pending[0];
      var t: nat := Max(earliest, ReadyAt(free, i));
      var rest := Timed(free[i.dst := t + Latency], pending[1..], t + 1);
      TimedIncreasing(free[i.dst := t + Latency], pending[1..], t + 1);
      var r := Timed(free, pending, earliest);
      assert r == [Issued(i, t + 1)] + rest;
      forall k | 0 < k < |pending|
        ensures r[k] == rest[k - 1]
      {
      }
    }
  }

  /** When no register is busy beyond `Latency` cycles from `earliest`, the
      first issue comes within `Latency + 1` cycles (within `Latency` if every
      register is free sooner), and no two consecutive issues are more than
      `Latency` cycles apart. */
  lemma {:induction false} TimedGaps(free: seq<int>, pending: seq<Instr>, earliest: nat)
    requires |free| == RegisterCount
    requires forall k :: 0 <= k < RegisterCount ==> free[k] <= earliest + Latency
    ensures pending != [] ==> Timed(free, pending, earliest)[0].cycle <= earliest + Latency + 1
    ensures pending != [] && (forall k :: 0 <= k < RegisterCount ==> free[k] < earliest + Latency) ==>
              Timed(free, pending, earliest)[0].cycle <= earliest + Latency
    ensures forall k :: 0 < k < |pending| ==>
              Timed(free, pending, earliest)[k].cycle <= Timed(free, pending, earliest)[k - 1].cycle + Latency
    decreases |pending|
  {
    if pending != [] {
      var i := pending[0];
      var t: nat := Max(earliest, ReadyAt(free, i));
      var free' := free[i.dst := t + Latency];
      var rest := Timed(free', pending[1..], t + 1);
      TimedGaps(free', pending[1..], t + 1);
      var r := Timed(free, pending, earliest);
      assert r == [Issued(i, t + 1)] + rest;
      forall k | 0 < k < |pending|
        ensures r[k].cycle <= r[k - 1].cycle + Latency
      {
        assert r[k] == rest[k - 1];
        if k > 1 {
          assert r[k - 1] == rest[k - 2];
        }
      }
    }
  }

  /** A register that is free only from cycle `bound` on holds back its
      readers: one reading it as first source issues after `bound`, one
      reading it as second source no earlier than `bound`, even if the
      register is written again in between. */
  lemma {:induction false} StaysBusy(free: seq<int>, pending: seq<Instr>, earliest: nat, reg: Reg, bound: int)
    requires |free| == RegisterCount && free[reg] >= bound && bound <= earliest + Latency
    ensures forall k :: 0 <= k < |pending| && pending[k].src1 == reg ==>
              Timed(free, pending, earliest)[k].cycle > bound
    ensures forall k :: 0 <= k < |pending| && pending[k].src2 == reg ==>
              Timed(free, pending, earliest)[k].cycle >= bound
    decreases |pending|
  {
    if pending != [] {
      var i := pending[0];
      var t: nat := Max(earliest, ReadyAt(free, i));
      var free' := free[i.dst := t + Latency];
      var rest := Timed(free', pending[1..], t + 1);
      StaysBusy(free', pending[1..], t + 1, reg, bound);
      var r := Timed(free, pending, earliest);
      assert r == [Issued(i, t + 1)] + rest;
      forall k | 0 < k < |pending|
        ensures r[k] == rest[k - 1]
      {
      }
    }
  }

  /** Read-after-write hazards are respected: an instruction reading, as its
      first source, the destination of an earlier one issues at least
      `Latency` cycles after it, and as its second source at least
      `Latency - 1` cycles after it. */
  lemma {:induction false} RespectsHazards(free: seq<int>, pending: seq<Instr>, earliest: nat)
    requires |free| == RegisterCount
    ensures forall j, k :: 0 <= j < k < |pending| && pending[j].dst == pending[k].src1 ==>
              Timed(free, pending, earliest)[k].cycle >= Timed(free, pending, earliest)[j].cycle + Latency
    ensures forall j, k :: 0 <= j < k < |pending| && pending[j].dst == pending[k].src2 ==>
              Timed(free, pending, earliest)[k].cycle >= Timed(free, pending, earliest)[j].cycle + Latency - 1
    decreases |pending|
  {
    if pending != [] {
      var i := pending[0];
      var t: nat := Max(earliest, ReadyAt(free, i));
      var free' := free[i.dst := t + Latency];
      var rest := Timed(free', pending[1..], t + 1);
      StaysBusy(free', pending[1..], t + 1, i.dst, t + Latency);
      RespectsHazards(free', pending[1..], t + 1);
      var r := Timed(free, pending, earliest);
      assert r == [Issued(i, t + 1)] + rest;
      forall k | 0 < k < |pending|
        ensures r[k] == rest[k - 1]
      {
      }
    }
  }

  /** `process_while` prints at strictly increasing cycles, each after the
      cycle it starts from. */
  lemma RunIncreasing(m: Machine)
    requires |m.register| == RegisterCount && NonNegative(m.register)
    ensures |Run(m, []).log| == |m.pending|
    ensures forall k :: 0 <= k < |m.pending| ==> Run(m, []).log[k].cycle > m.cycle
    ensures forall j, k :: 0 <= j < k < |m.pending| ==> Run(m, []).log[j].cycle < Run(m, []).log[k].cycle
  {
    ScheduleOfRun(m);
    TimedIncreasing(Deadlines(m), m.pending, m.cycle);
  }

  /** With every countdown in [0, 4], `process_while` prints its first line
      within five cycles and consecutive lines at most four cycles apart. */
  lemma RunGaps(m: Machine)
    requires InRange(m.register)
    ensures |Run(m, []).log| == |m.pending|
    ensures m.pending != [] ==> Run(m, []).log[0].cycle <= m.cycle + Latency + 1
    ensures forall k :: 0 < k < |m.pending| ==> Run(m, []).log[k].cycle <= Run(m, []).log[k - 1].cycle + Latency
  {
    ScheduleOfRun(m);
    TimedGaps(Deadlines(m), m.pending, m.cycle);
  }

  /** A register whose countdown reads `n` holds back every pending reader:
      as first source it prints after `cycle + n`, as second source no
      earlier than `cycle + n`. */
  lemma RunWaitsForOperands(m: Machine, reg: Reg)
    requires InRange(m.register)
    ensures |Run(m, []).log| == |m.pending|
    ensures forall k :: 0 <= k < |m.pending| && m.pending[k].src1 == reg ==>
              Run(m, []).log[k].cycle > m.cycle + m.register[reg]
    ensures forall k :: 0 <= k < |m.pending| && m.pending[k].src2 == reg ==>
              Run(m, []).log[k].cycle >= m.cycle + m.register[reg]
  {
    ScheduleOfRun(m);
    StaysBusy(Deadlines(m), m.pending, m.cycle, reg, m.cycle + m.register[reg]);
  }

  /** From a fresh pipeliner, the first instruction prints at cycle 1, the
      cycles strictly increase, and consecutive ones are at most four apart. */
  lemma FreshSchedule(instrs: seq<Instr>)
    ensures |Run(Initial(instrs), []).log| == |instrs|
    ensures instrs != [] ==> Run(Initial(instrs), []).log[0] == Issued(instrs[0], 1)
    ensures forall j, k :: 0 <= j < k < |instrs| ==>
              Run(Initial(instrs), []).log[j].cycle < Run(Initial(instrs), []).log[k].cycle
    ensures forall k :: 0 < k < |instrs| ==>
              Run(Initial(instrs), []).log[k].cycle <= Run(Initial(instrs), []).log[k - 1].cycle + Latency
  {
    var zero := seq(RegisterCount, k => 0);
    ProgramSchedule(instrs);
    TimedIncreasing(zero, instrs, 0);
    TimedGaps(zero, instrs, 0);
  }

  /** A single instruction on a fresh pipeliner prints at cycle 1. */
  lemma SingleInstruction(add: Instr)
    ensures Run(Initial([add]), []).log == [Issued(add, 1)]
  {
    ProgramSchedule([add]);
  }

  /** `MUL R0 R0 R1` then `ADD R1 R2 R3`: the second reads R1 as its first
      source, so it waits until R1 is fully free and prints at cycle 5. */
  lemma DependentFirstSource()
    ensures var mul := Instr("MUL", 0, 0, 1);
      var add := Instr("ADD", 1, 2, 3);
      Run(Initial([mul, add]), []).log == [Issued(mul, 1), Issued(add, 5)]
  {
    var mul := Instr("MUL", 0, 0, 1);
    var add := Instr("ADD", 1, 2, 3);
    var zero := seq(RegisterCount, k => 0);
    ProgramSchedule([mul, add]);
    assert ReadyAt(zero, mul) == 0;
    assert ReadyAt(zero[1 := Latency], add) == 4;
  }

  /** `MUL R0 R0 R1` then `ADD R2 R1 R3`: the second reads R1 as its second
      source, which may be one cycle short of free, so it prints at cycle 4. */
  lemma DependentSecondSource()
    ensures var mul := Instr("MUL", 0, 0, 1);
      var add := Instr("ADD", 2, 1, 3);
      Run(Initial([mul, add]), []).log == [Issued(mul, 1), Issued(add, 4)]
  {
    var mul := Instr("MUL", 0, 0, 1);
    var add := Instr("ADD", 2, 1, 3);
    var zero := seq(RegisterCount, k => 0);
    ProgramSchedule([mul, add]);
    assert ReadyAt(zero, mul) == 0;
    assert ReadyAt(zero[1 := Latency], add) == 3;
  }
}
