# Pipeliner: an in-order, single-issue scheduler with a register scoreboard

`Main.py` reads a list of instructions. Each instruction has an opcode, a first source register, a second source register and a destination register. A `Pipeliner` then prints, for each instruction, the cycle in which it issues.

The scheduler keeps ten registers, `R0`..`R9`. Each one holds a countdown: the number of cycles until the value written into it is available.

- **Hazard rule.** The front instruction may issue when its first source reads 0 or less and its second source reads 1 or less (`can_execute`).
- **Issuing.** An issue sets the destination's countdown to the latency, 4, and removes the instruction from the front of the list.
- **Each cycle.** The cycle counter advances by one, and every positive countdown drops by one (`cycle`).
- **`process`.** One issue attempt, without a clock step.
- **`process_while`.** Repeats attempt, print and cycle until the list is empty. It also has an early exit for the case where every countdown sums to zero.

The model has two modules.

- `Pipeline` (`pipeline.dfy`):
  - The state is a `Machine` value: countdowns, pending instructions, cycle.
  - `TryIssue` is `process`, `Advance` is `cycle`, and `Run` is `process_while`, including its early exit. `Run` returns the final state and the printed lines.
  - The class `Pipeliner` has the source's three fields: `register`, `instructions` and `currentCycle`. Its methods update them in place and are proved equal to those functions.
  - The lemmas show:
    - the early exit is never taken;
    - every countdown stays in [0, 4];
    - the list always ends up empty;
    - every instruction is printed once, in program order;
    - the clock stops at the last issue.
- `Schedule` (`schedule.dfy`):
  - An independent, closed-form reference `Timed` keeps, for each register, the absolute cycle from which it is free.
  - Each instruction issues at the first cycle that is both after the previous issue and one at which its operands are ready.
  - `RunMatchesTimed` proves that the cycle-by-cycle simulation prints exactly this schedule.
  - The remaining lemmas prove, about the printed schedule:
    - ordering and gap bounds;
    - read-after-write hazard safety;
    - the first issue at cycle 1;
    - the two dependent-instruction scenarios, issuing at cycles 1,5 and 1,4.

The early exit at `Main.py:39` is modelled as written. `NeverBreaks` proves that it cannot fire while instructions remain, because either an issue has just set a countdown to 4 or a stall means a source is still counting down.

## Model

| member | source | states |
|---|---|---|
| `Pipeline.Cleared` | Main.py:22-23 | the initial table has ten registers, all 0, hence within [0, 4] |
| `Pipeline.Initial` | Main.py:20-23 | a new pipeliner holds the given instructions, ten countdowns that are all 0, and cycle 0 |
| `Pipeline.CanExecute` | Main.py:43-44 | an instruction whose two sources are both free may issue, and one that may issue has its first source free (the full rule, with its asymmetry, is `Schedule.CanExecuteWhenReady`) |
| `Pipeline.Tick` | Main.py:49 | a cycle keeps the set of registers: the table still has the same ten entries (`TickSpec` gives the entries) |
| `Pipeline.TryIssue` | Main.py:25-30 | an issue attempt keeps the ten registers and never changes the cycle counter (`IssueSpec` gives the rest) |
| `Pipeline.Advance` | Main.py:46-49 | a cycle advances the counter by exactly one, keeps the ten registers and leaves the pending list alone |
| `Pipeline.Printed` | Main.py:35-37 | one iteration prints at most one line, and that line is the front instruction with `current_cycle + 1` |
| `Pipeline.Run` | Main.py:32-41 | the loop keeps the ten registers and never moves the cycle counter backwards (`RunDrains`, `RunInOrder`, `RunEndsAtLastIssue` and `Schedule.RunMatchesTimed` state what it prints) |
| `Pipeline.TickSpec` | Main.py:46-49 | a cycle decrements every positive countdown by exactly 1, leaves the others unchanged, keeps the ten registers, and preserves the [0, 4] range and non-negativity |
| `Pipeline.IssueSpec` | Main.py:25-30 | an issue attempt never changes the cycle. With an empty list or a stalled front it changes nothing. Otherwise it removes exactly the front instruction, sets its destination to 4 and leaves all other registers alone. It preserves [0, 4] and non-negativity |
| `Pipeline.Sum` | Main.py:39 | the sum tested by the early exit is at least 0 when no countdown is negative |
| `Pipeline.SumPositive` | Main.py:39 | with no negative countdown, one positive countdown makes that sum positive |
| `Pipeline.NeverBreaks` | Main.py:34-40 | after the issue attempt of any iteration with instructions pending, the sum of countdowns is positive, so the `break` is not taken |
| `Pipeline.RunIssues` | Main.py:34-41 | an iteration whose front instruction can execute prints it with cycle `current_cycle + 1` and removes it. The loop continues one cycle later with non-negative countdowns |
| `Pipeline.RunStalls` | Main.py:33-41 | an iteration whose front instruction cannot execute prints nothing and keeps the list. The loop continues one cycle later, with the front instruction strictly closer to issuing |
| `Pipeline.RunDrains` | Main.py:33-41 | `process_while` always terminates with an empty list, having printed exactly one line per instruction |
| `Pipeline.RunInOrder` | Main.py:33-38 | `process_while` keeps earlier output as a prefix and prints the pending instructions in program order, each exactly once |
| `Pipeline.RunEndsAtLastIssue` | Main.py:37-41 | when `process_while` stops, `current_cycle` equals the cycle printed on the last line |
| `Pipeline.RunInRange` | Main.py:32-49 | every countdown stays within [0, 4] through the whole of `process_while` |
| `Pipeline.Pipeliner.constructor` | Main.py:20-23 | a new object holds the given instructions, ten zero countdowns and cycle 0 |
| `Pipeline.Pipeliner.Process` | Main.py:25-30 | `process` changes the object exactly as one issue attempt does, and keeps every countdown within [0, 4] |
| `Pipeline.Pipeliner.Cycle` | Main.py:46-49 | `cycle` advances the clock by one and ticks the table, keeping every countdown within [0, 4] |
| `Pipeline.Pipeliner.IssueFront` | Main.py:34-38 | the issue half of a `process_while` iteration changes the object as one issue attempt does, and returns the line it prints: the front instruction with `current_cycle + 1`, or nothing |
| `Pipeline.Pipeliner.ProcessWhile` | Main.py:32-41 | the loop leaves the object in the final state of `Run` with the list empty, and returns exactly the lines `Run` prints |
| `Schedule.Timed` | Main.py:33-44 | the reference schedule has one line per pending instruction |
| `Schedule.CanExecuteWhenReady` | Main.py:43-44 | `can_execute` holds exactly when the first source is free and the second is at most one cycle short of free. The two operands are treated asymmetrically |
| `Schedule.TracksIssue` | Main.py:35-49 | after an issue and a cycle, the countdowns show the destination free four cycles after the issuing cycle, and the other registers as before |
| `Schedule.TracksStall` | Main.py:43-49 | after a stall and a cycle, the countdowns still show the same absolute free times |
| `Schedule.RunMatchesTimed` | Main.py:32-49 | `process_while` prints exactly the reference schedule after whatever was printed before |
| `Schedule.ScheduleOfRun` | Main.py:32-49 | from any state with non-negative countdowns, the printed lines are the reference schedule of the pending list |
| `Schedule.ProgramSchedule` | Main.py:20-41 | a new pipeliner prints the reference schedule that starts with every register free at cycle 0 |
| `Schedule.TimedIncreasing` | Main.py:33-41 | reference issue cycles come after the starting cycle and strictly increase |
| `Schedule.TimedGaps` | Main.py:35-49 | with no register busy for more than four cycles, the first reference issue comes within five cycles, and consecutive issues are at most four cycles apart |
| `Schedule.StaysBusy` | Main.py:43-49 | a register free only from cycle `b` holds its readers back: as first source until after `b`, as second source until `b`, even if it is rewritten in between |
| `Schedule.RespectsHazards` | Main.py:36-44 | a reader of an earlier instruction's destination issues at least 4 cycles after it as first source, and at least 3 cycles after it as second source |
| `Schedule.RunIncreasing` | Main.py:33-41 | `process_while` prints one line per instruction, at strictly increasing cycles, all after the starting cycle |
| `Schedule.RunGaps` | Main.py:35-49 | with countdowns in [0, 4], the first line is printed within five cycles and consecutive lines are at most four cycles apart |
| `Schedule.RunWaitsForOperands` | Main.py:43-49 | an instruction whose first source reads `n` prints after `cycle + n`. One whose second source reads `n` prints no earlier than `cycle + n` |
| `Schedule.FreshSchedule` | Main.py:20-41 | from a new pipeliner the first instruction prints at cycle 1, cycles strictly increase, and consecutive cycles are at most four apart |
| `Schedule.SingleInstruction` | Main.py:32-44 | a single instruction on a new pipeliner prints at cycle 1 |
| `Schedule.DependentFirstSource` | Main.py:33-49 | `MUL R0 R0 R1` then `ADD R1 R2 R3` print at cycles 1 and 5 |
| `Schedule.DependentSecondSource` | Main.py:33-49 | `MUL R0 R0 R1` then `ADD R2 R1 R3` print at cycles 1 and 4 |

## Left out

- Reading the instruction file and the top-level script (Main.py:6-12, 52-53) are file I/O. The instruction list is a parameter of the constructor.
- Console output. The `print` at Main.py:37 becomes a returned sequence of `Issued(instruction, cycle)` lines. The string formatting of a line (the Python list repr followed by the cycle) is not modelled.
- Class-level attribute sharing (Main.py:16-18). The table and list are class attributes, so `__init__` writes into a dictionary shared by all instances, and `pop(0)` also shortens the caller's list. The model gives each object its own state.
- Register names outside `R0`..`R9` and lines with fewer than four tokens. An unknown source name raises `KeyError` in `can_execute` (Main.py:44), and a short line raises `IndexError`. An unknown destination name does not raise: the assignment at Main.py:30 and 36 adds a new key to the table, which then counts in the sum at Main.py:39, ticks in `cycle` (Main.py:49), and can be read as a source by later instructions. The model restricts every register, destination included, to `R0`..`R9` (the type `Reg`), and every instruction has exactly four fields, so none of these cases is modelled.
- The opcode is carried through as an uninterpreted string, as the code never inspects it.
- Register names `"R0"`..`"R9"` are represented by their indices 0..9.
- The Python integers in the table never leave [0, 4] (`RunInRange`), so no width or overflow question arises.
