/**
  A single-issue, in-order pipeline with a per-register scoreboard.

  Ten registers R0..R9 each hold a countdown of cycles until the value
  written into them is available. The front instruction of the pending list
  issues when its first source is fully free and its second source is almost
  free; issuing sets the destination's countdown to the latency. Every cycle
  decrements each positive countdown by one.

  The behaviour is given as functions on a `Machine` value (`TryIssue`,
  `Advance`, `Run`), and the class `Pipeliner` updates its fields in place
  with methods proved to agree with those functions.
*/
module Pipeline {

  /** Number of architectural registers, named R0 .. R9. */
  const RegisterCount: nat := 10

  /** Cycles until a freshly written destination register is available. */
  const Latency: int := 4

  /** A register name: `Rk` stands for `k`. */
  type Reg = r: nat | r < RegisterCount

  /** One instruction line: opcode, first source, second source, destination.
      The opcode is carried through untouched: scheduling never inspects it. */
  datatype Instr = Instr(opcode: string, src1: Reg, src2: Reg, dst: Reg)

  /** One printed line of the schedule: an instruction and its issue cycle. */
  datatype Issued = Issued(instr: Instr, cycle: nat)

  /** What the scheduler works on: the countdown of every register, the
      instructions still to issue (front first) and the cycle counter. */
  datatype Machine = Machine(register: seq<int>, pending: seq<Instr>, cycle: nat)

  /** What a run leaves behind: the final state and everything printed. */
  datatype RunResult = RunResult(final: Machine, log: seq<Issued>)

  /** Every countdown lies between 0 and the latency. */
  predicate InRange(reg: seq<int>)
  {
    |reg| == RegisterCount && forall k :: 0 <= k < |reg| ==> 0 <= reg[k] <= Latency
  }

  /** No countdown is negative. */
  predicate NonNegative(reg: seq<int>)
  {
    forall k :: 0 <= k < |reg| ==> reg[k] >= 0
  }

  /** The register table right after construction: every register free. */
  function Cleared(): (reg: seq<int>)
    ensures InRange(reg)
    ensures forall k :: 0 <= k < |reg| ==> reg[k] == 0
  {
    seq(RegisterCount, k => 0)
  }

  /** The state of a pipeliner built over `instrs`. */
  function Initial(instrs: seq<Instr>): (m: Machine)
    ensures InRange(m.register) && m.pending == instrs && m.cycle == 0
    ensures forall k :: 0 <= k < |m.register| ==> m.register[k] == 0
  {
    Machine(Cleared(), instrs, 0)
  }

  /** The hazard rule: the first source must be fully free, the second may
      still have one cycle to go. */
  predicate CanExecute(reg: seq<int>, i: Instr)
    requires |reg| == RegisterCount
    ensures reg[i.src1] <= 0 && reg[i.src2] <= 0 ==> CanExecute(reg, i)
    ensures CanExecute(reg, i) ==> reg[i.src1] <= 0
  {
    reg[i.src1] <= 0 && reg[i.src2] <= 1
  }

  /** One clock tick of the table: positive countdowns drop by one, the
      others stay as they are (see `TickSpec`). */
  function Tick(reg: seq<int>): (r: seq<int>)
    ensures |r| == |reg|
  {
    seq(|reg|, k requires 0 <= k < |reg| => if reg[k] > 0 then reg[k] - 1 else reg[k])
  }

  /** The sum of all countdowns; it is not negative when no countdown is. */
  function Sum(reg: seq<int>): (total: int)
    ensures NonNegative(reg) ==> total >= 0
  {
    if reg == [] then 0 else reg[0] + Sum(reg[1..])
  }

  /** One `process` step: if the front instruction may issue, remove it and
      mark its destination busy; otherwise leave everything as it is (see
      `IssueSpec`). */
  function TryIssue(m: Machine): (r: Machine)
    requires |m.register| == RegisterCount
    ensures |r.register| == RegisterCount && r.cycle == m.cycle
  {
    if m.pending != [] && CanExecute(m.register, m.pending[0]) then
      m.(register := m.register[m.pending[0].dst := Latency], pending := m.pending[1..])
    else
      m
  }

  /** One `cycle` step: the clock advances by one and the table ticks. */
  function Advance(m: Machine): (r: Machine)
    ensures r.cycle == m.cycle + 1 && r.pending == m.pending && |r.register| == |m.register|
  {
    m.(register := Tick(m.register), cycle := m.cycle + 1)
  }

  /** How far the front instruction still is from issuing; it shrinks with
      every stalled cycle. */
  function Backlog(m: Machine): nat
    requires |m.register| == RegisterCount
  {
    if m.pending == [] then 0
    else
      var i := m.pending[0];
      (if m.register[i.src1] > 0 then m.register[i.src1] else 0)
      + (if m.register[i.src2] > 0 then m.register[i.src2] else 0)
  }

  /** The line printed by one iteration of `process_while` from `m`: the
      front instruction with cycle `cycle + 1` if it issues, nothing if it
      stalls. */
  function Printed(m: Machine): (lines: seq<Issued>)
    requires |m.register| == RegisterCount && m.pending != []
    ensures |lines| <= 1
    ensures lines != [] ==> lines[0] == Issued(m.pending[0], m.cycle + 1)
  {
    if CanExecute(m.register, m.pending[0]) then [Issued(m.pending[0], m.cycle + 1)] else []
  }

  /** `process_while` from state `m`, after `printed` has already been
      printed: while instructions remain, try to issue the front one, leave
      the loop if all countdowns sum to zero, and otherwise run a cycle. */
  function Run(m: Machine, printed: seq<Issued>): (r: RunResult)
    requires |m.register| == RegisterCount
    ensures |r.final.register| == RegisterCount && r.final.cycle >= m.cycle
    decreases |m.pending|, Backlog(m)
  {
    if m.pending == [] then RunResult(m, printed)
    else
      var m1 := TryIssue(m);
      var out := printed + Printed(m);
      if Sum(m1.register) == 0 then RunResult(m1, out)
      else Run(Advance(m1), out)
  }

  /** `cycle` decrements every positive countdown by exactly one, leaves the
      others alone, and keeps the countdowns within [0, 4]. */
  lemma TickSpec(reg: seq<int>)
    ensures |Tick(reg)| == |reg|
    ensures forall k :: 0 <= k < |reg| && reg[k] > 0 ==> Tick(reg)[k] == reg[k] - 1
    ensures forall k :: 0 <= k < |reg| && reg[k] <= 0 ==> Tick(reg)[k] == reg[k]
    ensures InRange(reg) ==> InRange(Tick(reg))
    ensures NonNegative(reg) ==> NonNegative(Tick(reg))
  {
  }

  /** `process` never touches the clock; on an empty list or a stalled front
      instruction it changes nothing; otherwise it removes exactly the front
      instruction, sets its destination to 4 and leaves every other register
      alone. Countdowns stay within [0, 4]. */
  lemma IssueSpec(m: Machine)
    requires |m.register| == RegisterCount
    ensures TryIssue(m).cycle == m.cycle
    ensures m.pending == [] || !CanExecute(m.register, m.pending[0]) ==> TryIssue(m) == m
    ensures m.pending != [] && CanExecute(m.register, m.pending[0]) ==>
              && TryIssue(m).pending == m.pending[1..]
              && TryIssue(m).register[m.pending[0].dst] == Latency
              && forall k :: 0 <= k < RegisterCount && k != m.pending[0].dst ==>
                   TryIssue(m).register[k] == m.register[k]
    ensures InRange(m.register) ==> InRange(TryIssue(m).register)
    ensures NonNegative(m.register) ==> NonNegative(TryIssue(m).register)
  {
  }

  /** A table with no negative entry and some positive entry sums to more
      than zero. */
  lemma {:induction false} SumPositive(reg: seq<int>, k: nat)
    requires NonNegative(reg) && k < |reg| && reg[k] > 0
    ensures Sum(reg) > 0
  {
    assert NonNegative(reg[1..]);
    if k > 0 {
      SumPositive(reg[1..], k - 1);
    }
  }

  /** The early exit of `process_while` is never taken while instructions
      remain: either the front instruction has just issued and its
      destination reads 4, or it stalled because one of its sources is still
      counting down. */
  lemma NeverBreaks(m: Machine)
    requires |m.register| == RegisterCount && NonNegative(m.register) && m.pending != []
    ensures Sum(TryIssue(m).register) > 0
  {
    var i := m.pending[0];
    IssueSpec(m);
    var r := TryIssue(m).register;
    if CanExecute(m.register, i) {
      SumPositive(r, i.dst);
    } else if m.register[i.src1] > 0 {
      SumPositive(r, i.src1);
    } else {
      SumPositive(r, i.src2);
    }
  }

  /** An iteration of `process_while` whose front instruction may issue:
      it prints that instruction with cycle `cycle + 1`, removes it, does not
      leave the loop, and keeps the table non-negative. */
  lemma RunIssues(m: Machine, printed: seq<Issued>)
    requires |m.register| == RegisterCount && NonNegative(m.register)
    requires m.pending != [] && CanExecute(m.register, m.pending[0])
    ensures var next := Advance(TryIssue(m));
      && |next.register| == RegisterCount && NonNegative(next.register)
      && next.pending == m.pending[1..] && next.cycle == m.cycle + 1
      && Run(m, printed) == Run(next, printed + [Issued(m.pending[0], m.cycle + 1)])
  {
    var m1 := TryIssue(m);
    var next := Advance(m1);
    assert m1.pending == m.pending[1..] && NonNegative(m1.register) by {
      IssueSpec(m);
    }
    assert NonNegative(next.register) by {
      TickSpec(m1.register);
    }
    NeverBreaks(m);
    assert Printed(m) == [Issued(m.pending[0], m.cycle + 1)];
  }

  /** An iteration of `process_while` whose front instruction must wait:
      it prints nothing, does not leave the loop, keeps the table
      non-negative, and brings the front instruction closer to issuing. */
  lemma RunStalls(m: Machine, printed: seq<Issued>)
    requires |m.register| == RegisterCount && NonNegative(m.register)
    requires m.pending != [] && !CanExecute(m.register, m.pending[0])
    ensures var next := Advance(TryIssue(m));
      && |next.register| == RegisterCount && NonNegative(next.register)
      && next.pending == m.pending && next.cycle == m.cycle + 1
      && Backlog(next) < Backlog(m)
      && Run(m, printed) == Run(next, printed)
  {
    var m1 := TryIssue(m);
    var next := Advance(m1);
    assert m1 == m by {
      IssueSpec(m);
    }
    assert NonNegative(next.register) && Backlog(next) < Backlog(m) by {
      TickSpec(m1.register);
    }
    NeverBreaks(m);
    assert printed + Printed(m) == printed;
  }

  /** The early exit never fires, so `process_while` only stops once the
      list is empty, having printed exactly one line per instruction. */
  lemma {:induction false} RunDrains(m: Machine, printed: seq<Issued>)
    requires |m.register| == RegisterCount && NonNegative(m.register)
    ensures Run(m, printed).final.pending == []
    ensures |Run(m, printed).log| == |printed| + |m.pending|
    decreases |m.pending|, Backlog(m)
  {
    if m.pending != [] {
      var next := Advance(TryIssue(m));
      if CanExecute(m.register, m.pending[0]) {
        RunIssues(m, printed);
        RunDrains(next, printed + [Issued(m.pending[0], m.cycle + 1)]);
      } else {
        RunStalls(m, printed);
        RunDrains(next, printed);
      }
    }
  }

  /** The instructions of a printed schedule, in printing order. */
  function Instrs(log: seq<Issued>): (r: seq<Instr>)
    ensures |r| == |log|
  {
    if log == [] then [] else [log[0].instr] + Instrs(log[1..])
  }

  /** Reading the instructions off a schedule distributes over appending. */
  lemma {:induction false} InstrsAppend(a: seq<Issued>, b: seq<Issued>)
    ensures Instrs(a + b) == Instrs(a) + Instrs(b)
  {
    if a == [] {
      assert a + b == b;
    } else {
      assert (a + b)[0] == a[0];
      assert (a + b)[1..] == a[1..] + b;
      InstrsAppend(a[1..], b);
    }
  }

  /** `process_while` keeps what was printed before and prints the pending
      instructions in program order, each exactly once. */
  lemma {:induction false} RunInOrder(m: Machine, printed: seq<Issued>)
    requires |m.register| == RegisterCount && NonNegative(m.register)
    ensures printed <= Run(m, printed).log
    ensures Instrs(Run(m, printed).log) == Instrs(printed) + m.pending
    decreases |m.pending|, Backlog(m)
  {
    if m.pending != [] {
      var next := Advance(TryIssue(m));
      if CanExecute(m.register, m.pending[0]) {
        var line := [Issued(m.pending[0], m.cycle + 1)];
        RunIssues(m, printed);
        RunInOrder(next, printed + line);
        PrintLine(printed, line, Run(m, printed).log, m.pending);
      } else {
        RunStalls(m, printed);
        RunInOrder(next, printed);
      }
    }
  }

  /** Printing the front instruction as one more line keeps the output in
      program order. */
  lemma PrintLine(printed: seq<Issued>, line: seq<Issued>, log: seq<Issued>, pending: seq<Instr>)
    requires |line| == 1 && pending != [] && line[0].instr == pending[0]
    requires printed + line <= log && Instrs(log) == Instrs(printed + line) + pending[1..]
    ensures printed <= log && Instrs(log) == Instrs(printed) + pending
  {
    InstrsAppend(printed, line);
    assert Instrs(line) == [pending[0]];
    assert [pending[0]] + pending[1..] == pending;
  }

  /** The clock of `process_while` stops at the cycle of the last issue. */
  lemma {:induction false} RunEndsAtLastIssue(m: Machine, printed: seq<Issued>)
    requires |m.register| == RegisterCount && NonNegative(m.register) && m.pending != []
    ensures |Run(m, printed).log| == |printed| + |m.pending|
    ensures Run(m, printed).final.cycle == Run(m, printed).log[|printed| + |m.pending| - 1].cycle
    decreases |m.pending|, Backlog(m)
  {
    var next := Advance(TryIssue(m));
    if CanExecute(m.register, m.pending[0]) {
      var out := printed + [Issued(m.pending[0], m.cycle + 1)];
      RunIssues(m, printed);
      if next.pending == [] {
        assert Run(next, out) == RunResult(next, out);
      } else {
        RunEndsAtLastIssue(next, out);
      }
    } else {
      RunStalls(m, printed);
      RunEndsAtLastIssue(next, printed);
    }
  }

  /** Every countdown stays within [0, 4] for the whole of `process_while`. */
  lemma {:induction false} RunInRange(m: Machine, printed: seq<Issued>)
    requires InRange(m.register)
    ensures InRange(Run(m, printed).final.register)
    decreases |m.pending|, Backlog(m)
  {
    if m.pending != [] {
      var m1 := TryIssue(m);
      IssueSpec(m);
      if Sum(m1.register) != 0 {
        var m2 := Advance(m1);
        TickSpec(m1.register);
        RunInRange(m2, printed + Printed(m));
      }
    }
  }

  /** The scheduler object. Its state belongs to this instance alone. */
  class Pipeliner {
    var register: seq<int>
    var instructions: seq<Instr>
    var currentCycle: nat

    /** Object invariant: ten registers, every countdown within [0, 4]. */
    ghost predicate Valid()
      reads this
    {
      InRange(register)
    }

    /** The abstract state of the object. */
    function State(): Machine
      reads this
    {
      Machine(register, instructions, currentCycle)
    }

    constructor (instrs: seq<Instr>)
      ensures Valid()
      ensures State() == Initial(instrs)
    {
      instructions := instrs;
      register := Cleared();
      currentCycle := 0;
    }

    /** `process`: one issue attempt, without a clock step. */
    method Process()
      requires Valid()
      modifies this
      ensures Valid()
      ensures State() == TryIssue(old(State()))
    {
      IssueSpec(State());
      if instructions != [] {
        var current := instructions[0];
        if CanExecute(register, current) {
          instructions := instructions[1..];
          register := register[current.dst := Latency];
        }
      }
    }

    /** `cycle`: advance the clock and tick every countdown. */
    method Cycle()
      requires Valid()
      modifies this
      ensures Valid()
      ensures State() == Advance(old(State()))
    {
      TickSpec(register);
      currentCycle := currentCycle + 1;
      register := Tick(register);
    }

    /** The first half of one `process_while` iteration: issue the front
        instruction if it may go, and return the line printed for it. */
    method IssueFront() returns (line: seq<Issued>)
      requires Valid() && instructions != []
      modifies this
      ensures Valid()
      ensures State() == TryIssue(old(State()))
      ensures line == Printed(old(State()))
    {
      IssueSpec(State());
      var instruction := instructions[0];
      line := [];
      if CanExecute(register, instruction) {
        register := register[instruction.dst := Latency];
        line := [Issued(instruction, currentCycle + 1)];
        instructions := instructions[1..];
      }
    }

    /** `process_while`: issue every instruction in order and return the
        printed schedule, each instruction with its issue cycle. The early
        exit when all countdowns are zero is kept as written; `RunDrains`
        shows it is never taken, so the list always ends up empty. */
    method ProcessWhile() returns (printed: seq<Issued>)
      requires Valid()
      modifies this
      ensures Valid()
      ensures RunResult(State(), printed) == Run(old(State()), [])
      ensures instructions == []
    {
      ghost var start := State();
      printed := [];
      while instructions != []
        invariant Valid()
        invariant Run(State(), printed) == Run(start, [])
        decreases |instructions|, Backlog(State())
      {
        var line := IssueFront();
        printed := printed + line;
        if Sum(register) == 0 {
          break;
        }
        Cycle();
      }
      RunDrains(start, []);
    }
  }
}
