/** The run loop and its transcript: execute from the first instruction, one rendered state
    per step, until a BREAK has run, the step budget is spent, or the program branches
    outside itself. */
module Runner {
  import opened Bits
  import opened Decoder
  import opened Text
  import opened Renderer
  import opened Machine
  import opened Dump

  /** One step of a run: its cycle number, the index of the instruction that ran, that
      instruction, and the state it left. */
  datatype Entry = Entry(cycle: int, index: int, instruction: Instruction, state: Simulator)

  /** Why a run that returns stopped: a BREAK ran, or the step budget ran out. */
  datatype Stop = HitBreak | LoopCap

  /** How a run ends. When the next index lies outside the program the source prints it and
      exits the process, so nothing is returned; otherwise it returns its entries. */
  datatype Outcome = Fatal(attempted: int) | Halted(entries: seq<Entry>, stop: Stop)

  /** A run gives up once this many steps have run without a BREAK. */
  const LOOP_LIMIT: nat := 100

  /** The instructions the decoder can produce: every field within its format's range. */
  predicate Executable(instructions: seq<Instruction>)
  {
    forall k :: 0 <= k < |instructions| ==> WellFormed(instructions[k].ins)
  }

  /** What one instruction does, as the run loop sees it: the state after it and the
      number of instructions to move by. */
  type Executor = (Simulator, Instr) --> Step

  /** The executor of ApplyInstructionToSimulator, defined on the instructions the decoder
      can produce. */
  function ExecutorOf(mode: Semantics): Executor
  {
    (s: Simulator, ins: Instr) requires WellFormed(ins) => Apply(mode, s, ins)
  }

  /** The executor can run every instruction of the program, from any state. */
  ghost predicate Runnable(exec: Executor, instructions: seq<Instruction>)
  {
    forall s: Simulator, k :: 0 <= k < |instructions| ==> exec.requires(s, instructions[k].ins)
  }

  lemma ExecutableIsRunnable(mode: Semantics, instructions: seq<Instruction>)
    requires Executable(instructions)
    ensures Runnable(ExecutorOf(mode), instructions)
  {
  }

  /** The loop of RunInstructionsAndReturnStrings from the instruction at `current`, with
      `counter` non-BREAK steps already run and `entries` recorded. */
  function RunFrom(exec: Executor, instructions: seq<Instruction>, sim: Simulator,
                   current: int, cycle: int, counter: nat, entries: seq<Entry>): Outcome
    requires Runnable(exec, instructions) && counter <= LOOP_LIMIT
    decreases LOOP_LIMIT - counter
  {
    if current >= |instructions| || current < 0 then Fatal(current)
    else
      var i := instructions[current];
      var step := exec(sim, i.ins);
      var entries' := entries + [Entry(cycle, current, i, step.sim)];
      if i.ins.Break? then Halted(entries', HitBreak)
      else if counter + 1 > LOOP_LIMIT then Halted(entries', LoopCap)
      else RunFrom(exec, instructions, step.sim, current + step.delta, cycle + 1, counter + 1, entries')
  }

  /** The state entry `k` started from: the initial state, or the one the entry before left. */
  function Before(sim0: Simulator, entries: seq<Entry>, k: nat): Simulator
    requires k <= |entries|
  {
    if k == 0 then sim0 else entries[k - 1].state
  }

  /** Entry `k` is step k+1 of the program: it ran the instruction at its index on the state
      before it and holds the state that left; if another entry follows, this one was not a
      BREAK and the next one is where it moved to. */
  predicate StepAt(exec: Executor, instructions: seq<Instruction>, sim0: Simulator, entries: seq<Entry>, k: nat)
    requires Runnable(exec, instructions) && k < |entries|
  {
    var e := entries[k];
    && e.cycle == k + 1
    && 0 <= e.index < |instructions|
    && e.instruction == instructions[e.index]
    && var step := exec(Before(sim0, entries, k), e.instruction.ins);
      && e.state == step.sim
      && (k + 1 < |entries| ==> !e.instruction.ins.Break? && entries[k + 1].index == e.index + step.delta)
  }

  /** The entries are the steps of the program from its first instruction on. */
  predicate IsTrace(exec: Executor, instructions: seq<Instruction>, sim0: Simulator, entries: seq<Entry>)
    requires Runnable(exec, instructions)
  {
    && (|entries| > 0 ==> entries[0].index == 0)
    && forall k :: 0 <= k < |entries| ==> StepAt(exec, instructions, sim0, entries, k)
  }

  /** The index the step after the last entry runs. */
  function NextIndex(exec: Executor, instructions: seq<Instruction>, sim0: Simulator, entries: seq<Entry>): int
    requires Runnable(exec, instructions) && IsTrace(exec, instructions, sim0, entries)
  {
    if entries == [] then 0
    else
      var k := |entries| - 1;
      assert StepAt(exec, instructions, sim0, entries, k);
      entries[k].index + exec(Before(sim0, entries, k), entries[k].instruction.ins).delta
  }

  /** Appending the step at the next index keeps a trace a trace. */
  lemma ExtendTrace(exec: Executor, instructions: seq<Instruction>, sim0: Simulator, entries: seq<Entry>, e: Entry)
    requires Runnable(exec, instructions) && IsTrace(exec, instructions, sim0, entries)
    requires entries != [] ==> !entries[|entries| - 1].instruction.ins.Break?
    requires 0 <= e.index < |instructions| && e.instruction == instructions[e.index]
    requires e.index == NextIndex(exec, instructions, sim0, entries)
    requires e.cycle == |entries| + 1
    requires e.state == exec(Before(sim0, entries, |entries|), e.instruction.ins).sim
    ensures IsTrace(exec, instructions, sim0, entries + [e])
  {
    var entries' := entries + [e];
    forall k | 0 <= k < |entries'|
      ensures StepAt(exec, instructions, sim0, entries', k)
    {
      assert Before(sim0, entries', k) == Before(sim0, entries, k);
      if k < |entries| {
        assert StepAt(exec, instructions, sim0, entries, k);
      }
    }
  }

  /** What a run returns, seen from the entries recorded so far: an index outside the
      program, or a trace that extends those entries, ends at its first BREAK or after the
      step budget, and never holds more than LOOP_LIMIT + 1 entries. */
  predicate Completes(exec: Executor, instructions: seq<Instruction>, sim0: Simulator, entries: seq<Entry>, out: Outcome)
    requires Runnable(exec, instructions)
  {
    && (out.Fatal? ==> out.attempted < 0 || out.attempted >= |instructions|)
    && (out.Halted? ==>
      && |entries| < |out.entries| <= LOOP_LIMIT + 1
      && out.entries[..|entries|] == entries
      && IsTrace(exec, instructions, sim0, out.entries)
      && (out.stop == HitBreak <==> out.entries[|out.entries| - 1].instruction.ins.Break?)
      && (out.stop == LoopCap ==> |out.entries| == LOOP_LIMIT + 1))
  }

  /** A run that completes what one more entry began completes what came before it. */
  lemma CompletesEarlier(exec: Executor, instructions: seq<Instruction>, sim0: Simulator,
                         entries: seq<Entry>, e: Entry, out: Outcome)
    requires Runnable(exec, instructions)
    requires Completes(exec, instructions, sim0, entries + [e], out)
    ensures Completes(exec, instructions, sim0, entries, out)
  {
    if out.Halted? {
      var entries' := entries + [e];
      assert entries'[..|entries|] == entries;
      assert out.entries[..|entries|] == out.entries[..|entries'|][..|entries|];
    }
  }

  /** The run from any point of a trace completes it. */
  lemma {:induction false} RunFromTrace(exec: Executor, instructions: seq<Instruction>, sim0: Simulator,
                                        sim: Simulator, counter: nat, entries: seq<Entry>)
    requires Runnable(exec, instructions) && counter <= LOOP_LIMIT
    requires |entries| == counter
    requires IsTrace(exec, instructions, sim0, entries)
    requires entries != [] ==> !entries[|entries| - 1].instruction.ins.Break?
    requires sim == Before(sim0, entries, |entries|)
    ensures Completes(exec, instructions, sim0, entries,
                      RunFrom(exec, instructions, sim, NextIndex(exec, instructions, sim0, entries), counter + 1, counter, entries))
    decreases LOOP_LIMIT - counter
  {
    var current := NextIndex(exec, instructions, sim0, entries);
    if 0 <= current < |instructions| {
      var i := instructions[current];
      var step := exec(sim, i.ins);
      var e := Entry(counter + 1, current, i, step.sim);
      var entries' := entries + [e];
      ExtendTrace(exec, instructions, sim0, entries, e);
      if !i.ins.Break? && counter + 1 <= LOOP_LIMIT {
        assert NextIndex(exec, instructions, sim0, entries') == current + step.delta;
        RunFromTrace(exec, instructions, sim0, step.sim, counter + 1, entries');
        var out := RunFrom(exec, instructions, step.sim, current + step.delta, counter + 2, counter + 1, entries');
        assert RunFrom(exec, instructions, sim, current, counter + 1, counter, entries) == out;
        CompletesEarlier(exec, instructions, sim0, entries, e, out);
      } else {
        assert entries'[..|entries|] == entries;
        assert entries'[|entries|] == e;
        if i.ins.Break? {
          assert RunFrom(exec, instructions, sim, current, counter + 1, counter, entries) == Halted(entries', HitBreak);
        } else {
          assert RunFrom(exec, instructions, sim, current, counter + 1, counter, entries) == Halted(entries', LoopCap);
        }
      }
    }
  }

  /** A run starts at the first instruction, in cycle 1, with no steps counted. It exits
      at an index outside the program, or returns between 1 and LOOP_LIMIT + 1 entries,
      stopping at a BREAK exactly when its last entry is one, and after exactly
      LOOP_LIMIT + 1 entries when the step budget ran out. */
  function Run(exec: Executor, instructions: seq<Instruction>, sim: Simulator): (out: Outcome)
    requires Runnable(exec, instructions)
    ensures out.Fatal? ==> out.attempted < 0 || out.attempted >= |instructions|
    ensures out.Halted? ==>
      && 1 <= |out.entries| <= LOOP_LIMIT + 1
      && (out.stop == HitBreak <==> out.entries[|out.entries| - 1].instruction.ins.Break?)
      && (out.stop == LoopCap ==> |out.entries| == LOOP_LIMIT + 1)
  {
    var out := RunFrom(exec, instructions, sim, 0, 1, 0, []);
    assert Completes(exec, instructions, sim, [], out) by {
      assert NextIndex(exec, instructions, sim, []) == 0;
      RunFromTrace(exec, instructions, sim, sim, 0, []);
    }
    out
  }

  /** RunInstructionsAndReturnStrings, before rendering: the entries of a run that returns
      are the steps of the program from its first instruction, each one the executor on
      the state the step before left. */
  lemma RunIsTrace(exec: Executor, instructions: seq<Instruction>, sim: Simulator)
    requires Runnable(exec, instructions)
    ensures var out := Run(exec, instructions, sim);
      out.Halted? ==> IsTrace(exec, instructions, sim, out.entries)
  {
    var out := RunFrom(exec, instructions, sim, 0, 1, 0, []);
    assert Completes(exec, instructions, sim, [], out) by {
      assert NextIndex(exec, instructions, sim, []) == 0;
      RunFromTrace(exec, instructions, sim, sim, 0, []);
    }
    assert Run(exec, instructions, sim) == out;
  }

  /** The entries of a run that returns are numbered by cycle 1, 2, ... */
  lemma RunCycles(exec: Executor, instructions: seq<Instruction>, sim: Simulator)
    requires Runnable(exec, instructions)
    ensures var out := Run(exec, instructions, sim);
      out.Halted? ==> forall k :: 0 <= k < |out.entries| ==> out.entries[k].cycle == k + 1
  {
    RunIsTrace(exec, instructions, sim);
    var out := Run(exec, instructions, sim);
    if out.Halted? {
      forall k | 0 <= k < |out.entries|
        ensures out.entries[k].cycle == k + 1
      {
        assert StepAt(exec, instructions, sim, out.entries, k);
      }
    }
  }

  /** A program without instructions cannot start: index 0 is already outside it. */
  lemma EmptyProgramIsFatal(exec: Executor, sim: Simulator)
    ensures Run(exec, [], sim) == Fatal(0)
  {
  }

  /** The separator line that opens every state. */
  const SEPARATOR: string := "===================="

  /** A register row: the tag `rNN:` and the values of registers NN to NN+7. */
  function RegisterRow(tag: string, regs: Registers, base: nat): string
    requires base <= 24
  {
    Fields(tag, regs[base..base + 8]) + "\n"
  }

  function RegisterBlock(regs: Registers): string
  {
    "registers:\n" + RegisterRow("r00:", regs, 0) + RegisterRow("r08:", regs, 8)
      + RegisterRow("r16:", regs, 16) + RegisterRow("r24:", regs, 24) + "\n"
  }

  /** StateToString: the separator, the cycle, the instruction's position and arguments,
      the four register rows and the data dump, appended in that order. The text opens
      with the separator line and the cycle number, and closes with the data entries in
      rows of eight, the rows that `DumpData`'s loop builds. */
  function StateToString(cycle: int, sim: Simulator, instruction: Instruction): (s: string)
    ensures var head := SEPARATOR + "\nCycle:" + IntToDecimal(cycle) + "\t";
      |head| <= |s| && s[..|head|] == head
    ensures var tail := "data:\n" + DataRows(sim.data);
      |tail| <= |s| && s[|s| - |tail|..] == tail
  {
    var c, p, a := IntToDecimal(cycle), IntToDecimal(instruction.pos), Args(instruction.ins);
    var top := SEPARATOR + "\n" + ("Cycle:" + c + "\t" + p + "\t" + a + "\n\n");
    CycleOpens(SEPARATOR, c, p, a);
    Bookends(SEPARATOR + "\nCycle:" + c + "\t", top,
      RegisterBlock(sim.registers), "data:\n", DataRows(sim.data));
    top + RegisterBlock(sim.registers) + "data:\n" + DataRows(sim.data)
  }

  /** A register row is one line, and splits at its tabs into its tag and the registers
      in decimal. */
  lemma RowLine(tag: string, values: seq<int>)
    requires '\t' !in tag && '\n' !in tag
    ensures var row := Fields(tag, values);
      '\n' !in row && Split(row, '\t') == [tag] + Decimals(values)
  {
    FieldsOneLine(tag, values);
    RowFields(tag, values);
  }

  /** Text whose last line is complete: it ends in a line break. */
  predicate Closed(x: string)
  {
    |x| > 0 && x[|x| - 1] == '\n'
  }

  /** A line and its line break: the line, then an empty field. */
  lemma LineBreak(line: string)
    requires '\n' !in line
    ensures Closed(line + "\n") && Split(line + "\n", '\n') == [line] + [""]
  {
    SplitPrefix(line, "", '\n');
    assert line + "\n" == line + ['\n'] + "";
  }

  /** Appending after a last element is appending before it. */
  lemma RegroupLast<T>(a: seq<T>, b: seq<T>, z: T)
    ensures a + (b + [z]) == a + b + [z]
  {
  }

  /** Dropping the last element of a sequence gives back the rest. */
  lemma DropLast<T>(a: seq<T>, z: T)
    ensures (a + [z])[..|a|] == a
  {
  }

  /** Two elements in front of a sequence, one at a time or together. */
  lemma ConsTwo<T>(x: T, y: T, r: seq<T>)
    ensures [x] + ([y] + r) == [x, y] + r
  {
  }

  /** Two texts whose last lines are complete, one after the other: the lines of the
      first, then those of the second. */
  lemma Glue(x: string, xs: seq<string>, y: string, ys: seq<string>)
    requires Closed(x) && Split(x, '\n') == xs + [""]
    requires Closed(y) && Split(y, '\n') == ys + [""]
    ensures Closed(x + y) && Split(x + y, '\n') == xs + ys + [""]
  {
    SplitAfterBreak(x, y, '\n');
    DropLast(xs, "");
    RegroupLast(xs, ys, "");
  }

  /** A blank line after text: its lines, then an empty one. */
  lemma BlankLine(x: string, xs: seq<string>)
    requires Split(x, '\n') == xs + [""]
    ensures Closed(x + "\n") && Split(x + "\n", '\n') == xs + [""] + [""]
  {
    SplitCat(x, "", '\n');
    assert x + "\n" == x + ['\n'] + "";
  }

  /** One more one-line row after text whose last line is complete. */
  lemma OneRow(x: string, xs: seq<string>, line: string)
    requires Closed(x) && Split(x, '\n') == xs + [""]
    requires '\n' !in line
    ensures Closed(x + (line + "\n")) && Split(x + (line + "\n"), '\n') == xs + [line] + [""]
  {
    LineBreak(line);
    Glue(x, xs, line + "\n", [line]);
  }

  /** Two more one-line rows after text whose last line is complete. */
  lemma TwoRows(x: string, xs: seq<string>, fa: string, fb: string)
    requires Closed(x) && Split(x, '\n') == xs + [""]
    requires '\n' !in fa && '\n' !in fb
    ensures var y := x + (fa + "\n") + (fb + "\n");
      Closed(y) && Split(y, '\n') == xs + [fa] + [fb] + [""]
  {
    OneRow(x, xs, fa);
    OneRow(x + (fa + "\n"), xs + [fa], fb);
  }

  /** The register block, line by line: its title, four one-line rows, a blank line. */
  lemma BlockBreaks(title: string, f0: string, f1: string, f2: string, f3: string)
    requires '\n' !in title
    requires '\n' !in f0 && '\n' !in f1 && '\n' !in f2 && '\n' !in f3
    ensures var block := title + "\n" + (f0 + "\n") + (f1 + "\n") + (f2 + "\n") + (f3 + "\n") + "\n";
      Closed(block) && Split(block, '\n') == [title] + [f0] + [f1] + [f2] + [f3] + [""] + [""]
  {
    LineBreak(title);
    TwoRows(title + "\n", [title], f0, f1);
    var x2 := title + "\n" + (f0 + "\n") + (f1 + "\n");
    TwoRows(x2, [title] + [f0] + [f1], f2, f3);
    BlankLine(x2 + (f2 + "\n") + (f3 + "\n"), [title] + [f0] + [f1] + [f2] + [f3]);
  }

  /** The separator line, then the cycle line and a blank line. */
  lemma TopBreaks(separator: string, line: string)
    requires '\n' !in separator && '\n' !in line
    ensures var top := separator + "\n" + (line + "\n\n");
      Closed(top) && Split(top, '\n') == [separator] + [line] + [""] + [""]
  {
    LineBreak(separator);
    LineBreak(line);
    BlankLine(line + "\n", [line]);
    assert line + "\n\n" == line + "\n" + "\n";
    Glue(separator + "\n", [separator], line + "\n\n", [line] + [""]);
    RegroupLast([separator], [line], "");
  }

  /** The lines of a state's text on abstract pieces: the separator line, the cycle line,
      a blank line, the register block and `data:`, then the lines of the dump. */
  lemma StateSplit(separator: string, line: string, f0: string, f1: string, f2: string,
    f3: string, rows: string)
    requires '\n' !in separator && '\n' !in line
    requires '\n' !in f0 && '\n' !in f1 && '\n' !in f2 && '\n' !in f3
    ensures var block := "registers:\n" + (f0 + "\n") + (f1 + "\n") + (f2 + "\n") + (f3 + "\n") + "\n";
      Split(separator + "\n" + (line + "\n\n") + block + "data:\n" + rows, '\n')
        == [separator, line, "", "registers:", f0, f1, f2, f3, "", "data:"] + Split(rows, '\n')
  {
    var block := "registers:\n" + (f0 + "\n") + (f1 + "\n") + (f2 + "\n") + (f3 + "\n") + "\n";
    var x1 := separator + "\n" + (line + "\n\n");
    var top := [separator] + [line] + [""];
    TopBreaks(separator, line);
    var regs := ["registers:"] + [f0] + [f1] + [f2] + [f3] + [""];
    BlockBreaks("registers:", f0, f1, f2, f3);
    assert "registers:" + "\n" == "registers:\n";
    Glue(x1, top, block, regs);
    var x2 := x1 + block;
    OneRow(x2, top + regs, "data:");
    assert "data:" + "\n" == "data:\n";
    var x3 := x2 + "data:\n";
    var all := top + regs + ["data:"];
    SplitAfterBreak(x3, rows, '\n');
    DropLast(all, "");
    TenLines(separator, line, "", "registers:", f0, f1, f2, f3, "", "data:");
  }

  /** The same lines, one at a time. */
  lemma StateBreaks(separator: string, line: string, f0: string, f1: string, f2: string,
    f3: string, rows: string)
    requires '\n' !in separator && '\n' !in line
    requires '\n' !in f0 && '\n' !in f1 && '\n' !in f2 && '\n' !in f3
    ensures var block := "registers:\n" + (f0 + "\n") + (f1 + "\n") + (f2 + "\n") + (f3 + "\n") + "\n";
      var lines := Split(separator + "\n" + (line + "\n\n") + block + "data:\n" + rows, '\n');
      && |lines| >= 10
      && lines[0] == separator && lines[1] == line && lines[2] == "" && lines[3] == "registers:"
      && lines[4] == f0 && lines[5] == f1 && lines[6] == f2 && lines[7] == f3
      && lines[8] == "" && lines[9] == "data:" && lines[10..] == Split(rows, '\n')
  {
    StateSplit(separator, line, f0, f1, f2, f3, rows);
  }

  /** Ten elements appended in the groups the state's text builds them in, written out. */
  lemma TenLines<T>(a0: T, a1: T, a2: T, a3: T, a4: T, a5: T, a6: T, a7: T, a8: T, a9: T)
    ensures [a0] + [a1] + [a2] + ([a3] + [a4] + [a5] + [a6] + [a7] + [a8]) + [a9]
      == [a0, a1, a2, a3, a4, a5, a6, a7, a8, a9]
  {
  }

  /** The layout of a state's text on abstract pieces, with the cycle line and the
      register rows cut at their tabs. */
  lemma LayoutLines(text: string, c: string, p: string, a: string, regs: Registers, rows: string)
    requires '\t' !in c && '\n' !in c && '\t' !in p && '\n' !in p && '\n' !in a
    requires text == SEPARATOR + "\n" + ("Cycle:" + c + "\t" + p + "\t" + a + "\n\n")
      + ("registers:\n" + (Fields("r00:", regs[0..8]) + "\n") + (Fields("r08:", regs[8..16]) + "\n")
        + (Fields("r16:", regs[16..24]) + "\n") + (Fields("r24:", regs[24..32]) + "\n") + "\n")
      + "data:\n" + rows
    ensures var lines := Split(text, '\n');
      && |lines| >= 10
      && lines[0] == SEPARATOR
      && Split(lines[1], '\t') == ["Cycle:" + c, p] + Split(a, '\t')
      && lines[2] == "" && lines[3] == "registers:"
      && Split(lines[4], '\t') == ["r00:"] + Decimals(regs[0..8])
      && Split(lines[5], '\t') == ["r08:"] + Decimals(regs[8..16])
      && Split(lines[6], '\t') == ["r16:"] + Decimals(regs[16..24])
      && Split(lines[7], '\t') == ["r24:"] + Decimals(regs[24..32])
      && lines[8] == "" && lines[9] == "data:"
      && lines[10..] == Split(rows, '\n')
  {
    var line := "Cycle:" + c + "\t" + p + "\t" + a;
    CycleFields(c, p, a);
    RowLine("r00:", regs[0..8]);
    RowLine("r08:", regs[8..16]);
    RowLine("r16:", regs[16..24]);
    RowLine("r24:", regs[24..32]);
    StateBreaks(SEPARATOR, line, Fields("r00:", regs[0..8]), Fields("r08:", regs[8..16]),
      Fields("r16:", regs[16..24]), Fields("r24:", regs[24..32]), rows);
  }

  /** The cycle line is one line, and splits at its tabs into the cycle, the position and
      the fields of the assembly text. */
  lemma CycleFields(c: string, p: string, a: string)
    requires '\t' !in c && '\n' !in c && '\t' !in p && '\n' !in p && '\n' !in a
    ensures var line := "Cycle:" + c + "\t" + p + "\t" + a;
      '\n' !in line && Split(line, '\t') == ["Cycle:" + c, p] + Split(a, '\t')
  {
    var h := "Cycle:" + c;
    assert '\t' !in "Cycle:" && '\n' !in "Cycle:";
    assert '\t' !in h && '\n' !in h;
    Regroup(h + "\t", p + "\t", a);
    Regroup(h + "\t", p, "\t");
    SplitPrefix(h, p + "\t" + a, '\t');
    SplitPrefix(p, a, '\t');
    ConsTwo(h, p, Split(a, '\t'));
  }

  /** A state's text, line by line: the separator; the cycle line, whose tab-separated
      fields are the cycle, the instruction's position and the fields of its assembly
      text; a blank line; `registers:` and the four register rows, each splitting at its
      tabs into its tag and its eight registers in decimal; a blank line; `data:`; and then
      the lines of the data dump. */
  lemma StateLines(cycle: int, sim: Simulator, instruction: Instruction)
    ensures var lines := Split(StateToString(cycle, sim, instruction), '\n');
      var regs := sim.registers;
      && |lines| >= 10
      && lines[0] == SEPARATOR
      && Split(lines[1], '\t')
        == ["Cycle:" + IntToDecimal(cycle), IntToDecimal(instruction.pos)] + Split(Args(instruction.ins), '\t')
      && lines[2] == "" && lines[3] == "registers:"
      && Split(lines[4], '\t') == ["r00:"] + Decimals(regs[0..8])
      && Split(lines[5], '\t') == ["r08:"] + Decimals(regs[8..16])
      && Split(lines[6], '\t') == ["r16:"] + Decimals(regs[16..24])
      && Split(lines[7], '\t') == ["r24:"] + Decimals(regs[24..32])
      && lines[8] == "" && lines[9] == "data:"
      && lines[10..] == Split(DataRows(sim.data), '\n')
  {
    ArgsFields(instruction.ins);
    DecimalAvoids(cycle, '\t');
    DecimalAvoids(cycle, '\n');
    DecimalAvoids(instruction.pos, '\t');
    DecimalAvoids(instruction.pos, '\n');
    StateText(cycle, sim, instruction);
    LayoutLines(StateToString(cycle, sim, instruction), IntToDecimal(cycle), IntToDecimal(instruction.pos),
      Args(instruction.ins), sim.registers, DataRows(sim.data));
  }

  /** A state's text, written out on its pieces: the cycle line and the register rows. */
  lemma StateText(cycle: int, sim: Simulator, instruction: Instruction)
    ensures var regs := sim.registers;
      var c, p, a := IntToDecimal(cycle), IntToDecimal(instruction.pos), Args(instruction.ins);
      var f0, f1 := Fields("r00:", regs[0..8]), Fields("r08:", regs[8..16]);
      var f2, f3 := Fields("r16:", regs[16..24]), Fields("r24:", regs[24..32]);
      var block := "registers:\n" + (f0 + "\n") + (f1 + "\n") + (f2 + "\n") + (f3 + "\n") + "\n";
      StateToString(cycle, sim, instruction)
        == SEPARATOR + "\n" + ("Cycle:" + c + "\t" + p + "\t" + a + "\n\n") + block + "data:\n" + DataRows(sim.data)
  {
    var regs := sim.registers;
    assert regs[0..0 + 8] == regs[0..8];
  }

  /** Transcript of a run: the rendered states, or the index that ended the process. */
  datatype Transcript = Exited(attempted: int) | Printed(lines: seq<string>)

  /** The transcript of a run with any executor: the exit when the run branches outside
      the program; otherwise line k is the state after step k + 1, rendered with its cycle
      number k + 1, one line per step. */
  function Transcribe(exec: Executor, instructions: seq<Instruction>, sim: Simulator): (out: Transcript)
    requires Runnable(exec, instructions)
    ensures var run := Run(exec, instructions, sim);
      && (out.Printed? <==> run.Halted?)
      && (out.Exited? ==> run == Fatal(out.attempted))
      && (out.Printed? ==>
        && |out.lines| == |run.entries|
        && forall k :: 0 <= k < |out.lines| ==>
          out.lines[k] == StateToString(k + 1, run.entries[k].state, run.entries[k].instruction))
  {
    RunCycles(exec, instructions, sim);
    var run := Run(exec, instructions, sim);
    if run.Fatal? then Exited(run.attempted)
    else
      var entries := run.entries;
      Printed(seq(|entries|, k requires 0 <= k < |entries| =>
        StateToString(entries[k].cycle, entries[k].state, entries[k].instruction)))
  }

  /** RunInstructionsAndReturnStrings: the transcript of the run of
      ApplyInstructionToSimulator. It is the exit when the run branches outside the
      program, as an empty program does at once; otherwise line k is the state after step
      k + 1 of the run, rendered with its cycle number k + 1, one line per step and at most
      LOOP_LIMIT + 1 of them. */
  function RunInstructionsAndReturnStrings(mode: Semantics, sim: Simulator, instructions: seq<Instruction>): (out: Transcript)
    requires Executable(instructions)
    ensures out.Printed? ==> 1 <= |out.lines| <= LOOP_LIMIT + 1
    ensures out.Exited? ==> out.attempted < 0 || out.attempted >= |instructions|
    ensures |instructions| == 0 ==> out == Exited(0)
    ensures var run := Run(ExecutorOf(mode), instructions, sim);
      && (out.Printed? <==> run.Halted?)
      && (out.Exited? ==> run == Fatal(out.attempted))
      && (out.Printed? ==>
        && |out.lines| == |run.entries|
        && forall k :: 0 <= k < |out.lines| ==>
          out.lines[k] == StateToString(k + 1, run.entries[k].state, run.entries[k].instruction))
  {
    ExecutableIsRunnable(mode, instructions);
    EmptyProgramIsFatal(ExecutorOf(mode), sim);
    Transcribe(ExecutorOf(mode), instructions, sim)
  }
}
