/** Rendering the decoded program as text: each instruction as its bit groups, position and
    assembly arguments, each data word as its bits, position and value. */
module Renderer {
  import opened Bits
  import opened Opcodes
  import opened Decoder
  import opened Text

  function ROpName(op: ROp): string
  {
    match op
    case AND => "AND"
    case ADD => "ADD"
    case ORR => "ORR"
    case SUB => "SUB"
    case LSL => "LSL"
    case LSR => "LSR"
    case ASR => "ASR"
    case EOR => "EOR"
  }

  /** The mnemonic the opcode tables give the instruction; empty when unrecognised. */
  function Mnemonic(ins: Instr): (name: string)
    ensures name == "" <==> ins.Unrecognised?
  {
    match ins
    case RFormat(op, _, _, _, _) => ROpName(op)
    case DFormat(op, _, _, _) => if op == STUR then "STUR" else "LDUR"
    case IFormat(op, _, _, _) => if op == ADDI then "ADDI" else "SUBI"
    case IMFormat(op, _, _, _) => if op == MOVZ then "MOVZ" else "MOVK"
    case CBFormat(op, _, _) => if op == CBZ then "CBZ" else "CBNZ"
    case BFormat(_) => "B"
    case Nop => "NOP"
    case Break => "BREAK"
    case Unrecognised => ""
  }

  /** Shift instructions print their shift amount; the other R-format ones a third register. */
  predicate IsShift(op: ROp)
  {
    op == LSL || op == ASR || op == LSR
  }

  /** Text that stays one field of one line: it holds neither a tab nor a line break. */
  predicate OneField(s: string)
  {
    '\t' !in s && '\n' !in s
  }

  /** A number in decimal, as an operand. */
  function Number(i: int): (s: string)
    ensures s != "" && OneField(s)
  {
    DecimalAvoids(i, '\t');
    DecimalAvoids(i, '\n');
    IntToDecimal(i)
  }

  function Reg(r: RegIndex): (s: string)
    ensures s != "" && OneField(s)
  {
    "R" + Number(r)
  }

  function Imm(v: int): (s: string)
    ensures s != "" && OneField(s)
  {
    "#" + Number(v)
  }

  /** The operands after the mnemonic, in the order of each format's assembly syntax. They
      are empty exactly for the formats written without operands, and stay one field of
      one line. */
  function Operands(ins: Instr): (ops: string)
    ensures ops == "" <==> ins.Nop? || ins.Break? || ins.Unrecognised?
    ensures OneField(ops)
  {
    match ins
    case RFormat(op, rm, shamt, rn, rd) =>
      if IsShift(op) then Reg(rd) + ", " + Reg(rn) + ", " + Imm(shamt)
      else Reg(rd) + ", " + Reg(rn) + ", " + Reg(rm)
    case DFormat(_, address, rn, rd) => Reg(rd) + ", [" + Reg(rn) + ", " + Imm(address) + "]"
    case IFormat(_, imm, rn, rd) => Reg(rd) + ", " + Reg(rn) + ", " + Imm(imm)
    case IMFormat(_, shiftCode, field, rd) =>
      Reg(rd) + ", " + Number(field) + ", LSL " + Number(shiftCode)
    case CBFormat(_, offset, rd) => Reg(rd) + ", " + Imm(offset)
    case BFormat(offset) => Imm(offset)
    case _ => ""
  }

  /** The instruction's `args` text: the mnemonic, then a tab and the operands for every
      format that has operands. */
  function Args(ins: Instr): (args: string)
    ensures args == "" <==> ins.Unrecognised?
  {
    if ins.Nop? || ins.Break? || ins.Unrecognised? then Mnemonic(ins)
    else Mnemonic(ins) + "\t" + Operands(ins)
  }

  /** A mnemonic holds neither a tab nor a line break. */
  lemma MnemonicOneField(ins: Instr)
    ensures OneField(Mnemonic(ins))
  {
  }

  /** The assembly text is one line, and splits at its tab into the mnemonic and, for
      every format written with operands, the operands. */
  lemma ArgsFields(ins: Instr)
    ensures '\n' !in Args(ins)
    ensures Split(Args(ins), '\t') ==
      if ins.Nop? || ins.Break? || ins.Unrecognised? then [Mnemonic(ins)]
      else [Mnemonic(ins), Operands(ins)]
  {
    var name, ops := Mnemonic(ins), Operands(ins);
    MnemonicOneField(ins);
    SplitJoin([ops], '\t');
    SplitJoin([name], '\t');
    if !(ins.Nop? || ins.Break? || ins.Unrecognised?) {
      SplitPrefix(name, ops, '\t');
    }
  }

  /** Where each format's bit groups start and end, left to right. */
  function Cuts(ins: Instr): (cuts: seq<nat>)
    ensures !ins.Unrecognised? ==> |cuts| >= 2 && cuts[0] == 0 && cuts[|cuts| - 1] == 32
    ensures Increasing(cuts)
  {
    match ins
    case RFormat(_, _, _, _, _) => [0, 11, 16, 22, 27, 32]
    case DFormat(_, _, _, _) => [0, 11, 20, 22, 27, 32]
    case IFormat(_, _, _, _) => [0, 10, 22, 27, 32]
    case IMFormat(_, _, _, _) => [0, 9, 11, 27, 32]
    case CBFormat(_, _, _) => [0, 8, 27, 32]
    case BFormat(_) => [0, 6, 32]
    case Nop => [0, 32]
    case Break => [0, 1, 6, 11, 16, 21, 26, 32]
    case Unrecognised => []
  }

  predicate Increasing(cuts: seq<nat>)
  {
    forall i, j :: 0 <= i < j < |cuts| ==> cuts[i] < cuts[j]
  }

  /** The slices of `raw` between consecutive cut points. */
  function Groups(raw: string, cuts: seq<nat>): (groups: seq<string>)
    requires Increasing(cuts) && (|cuts| > 0 ==> cuts[|cuts| - 1] <= |raw|)
    ensures |groups| == if |cuts| == 0 then 0 else |cuts| - 1
    ensures forall j :: 0 <= j < |groups| ==> groups[j] == raw[cuts[j]..cuts[j + 1]]
    decreases |cuts|
  {
    if |cuts| <= 1 then []
    else
      assert Increasing(cuts[..|cuts| - 1]);
      Groups(raw, cuts[..|cuts| - 1]) + [raw[cuts[|cuts| - 2]..cuts[|cuts| - 1]]]
  }

  /** Contiguous groups from the first cut to the last put the covered slice back together. */
  lemma {:induction false} ConcatGroups(raw: string, cuts: seq<nat>)
    requires |cuts| >= 1 && Increasing(cuts) && cuts[|cuts| - 1] <= |raw|
    ensures Concat(Groups(raw, cuts)) == raw[cuts[0]..cuts[|cuts| - 1]]
    decreases |cuts|
  {
    if |cuts| > 1 {
      var init := cuts[..|cuts| - 1];
      assert Increasing(init);
      ConcatGroups(raw, init);
      var g := Groups(raw, cuts);
      assert g[..|g| - 1] == Groups(raw, init);
      assert raw[cuts[0]..cuts[|cuts| - 1]]
        == raw[cuts[0]..cuts[|cuts| - 2]] + raw[cuts[|cuts| - 2]..cuts[|cuts| - 1]];
    }
  }

  /** The bit groups of an instruction's line, separated by single spaces. */
  function BitGroups(i: Instruction): string
    requires |i.raw| == 32
  {
    Join(Groups(i.raw, Cuts(i.ins)), ' ')
  }

  /** InstructionToString: bit groups, position and arguments separated by tabs; an
      unrecognised word renders as nothing at all. */
  function InstructionToString(i: Instruction): (line: string)
    requires |i.raw| == 32
    ensures line == "" <==> i.ins.Unrecognised?
  {
    if i.ins.Unrecognised? then ""
    else Join([BitGroups(i), IntToDecimal(i.pos), Args(i.ins)], '\t') + "\n"
  }

  /** DataToString: bits, position and signed value separated by tabs. The line ends in a
      newline, and when the bits hold no tab it splits at its tabs into exactly those
      three fields. */
  function DataToString(d: Data): (line: string)
    ensures |line| > 0 && line[|line| - 1] == '\n'
    ensures '\t' !in d.raw ==> Split(line[..|line| - 1], '\t') == [d.raw, IntToDecimal(d.pos), IntToDecimal(d.value)]
  {
    var fields := [d.raw, IntToDecimal(d.pos), IntToDecimal(d.value)];
    var line := Join(fields, '\t') + "\n";
    assert line[..|line| - 1] == Join(fields, '\t');
    DecimalAvoids(d.pos, '\t');
    DecimalAvoids(d.value, '\t');
    if '\t' in d.raw then line
    else
      SplitJoin(fields, '\t');
      line
  }

  /** The bit groups of a recognised instruction are contiguous and cover all 32 bits, so
      deleting the separating spaces gives back the line the instruction was decoded from. */
  lemma BitGroupsSpellRaw(i: Instruction)
    requires IsWordLine(i.raw) && !i.ins.Unrecognised?
    ensures Delete(BitGroups(i), ' ') == i.raw
    ensures '\t' !in BitGroups(i)
  {
    var cuts := Cuts(i.ins);
    var groups := Groups(i.raw, cuts);
    forall j | 0 <= j < |groups|
      ensures ' ' !in groups[j] && '\t' !in groups[j]
    {
      forall k | 0 <= k < |groups[j]|
        ensures IsBit(groups[j][k])
      {
        assert groups[j] == i.raw[cuts[j]..cuts[j + 1]];
        assert groups[j][k] == i.raw[cuts[j] + k];
      }
    }
    DeleteJoin(groups, ' ');
    ConcatGroups(i.raw, cuts);
    assert i.raw[0..32] == i.raw;
    JoinAvoids(groups, ' ', '\t');
  }

  /** The first tab-separated field of a recognised instruction's line is its bit groups,
      which spell the decoded line once the spaces are deleted, the second field is its
      position, and the fields after them are those of its assembly text (with the line
      break on the last one). */
  lemma RenderedBitsSpellRaw(i: Instruction)
    requires IsWordLine(i.raw) && !i.ins.Unrecognised?
    ensures var fields := Split(InstructionToString(i), '\t');
      |fields| >= 3 && Delete(fields[0], ' ') == i.raw && fields[1] == IntToDecimal(i.pos)
    ensures Split(InstructionToString(i), '\t')
      == [BitGroups(i), IntToDecimal(i.pos)] + Split(Args(i.ins) + "\n", '\t')
  {
    BitGroupsSpellRaw(i);
    DecimalAvoids(i.pos, '\t');
    SplitThree(BitGroups(i), IntToDecimal(i.pos), Args(i.ins), '\t', "\n");
  }

  /** ConvertInstructionsAndDataToStrings: one line per instruction, in order, then one
      line per data word, in order. */
  method ConvertInstructionsAndDataToStrings(instructions: seq<Instruction>, data: seq<Data>)
    returns (results: seq<string>)
    requires forall k :: 0 <= k < |instructions| ==> |instructions[k].raw| == 32
    ensures |results| == |instructions| + |data|
    ensures forall k :: 0 <= k < |instructions| ==> results[k] == InstructionToString(instructions[k])
    ensures forall k :: 0 <= k < |data| ==> results[|instructions| + k] == DataToString(data[k])
  {
    var instructionLines := RenderEach(instructions, (i: Instruction) requires |i.raw| == 32 => InstructionToString(i));
    var dataLines := RenderEach(data, DataToString);
    results := instructionLines + dataLines;
  }

  /** One rendered line per element, in order. */
  method RenderEach<T>(items: seq<T>, render: T --> string) returns (lines: seq<string>)
    requires forall k :: 0 <= k < |items| ==> render.requires(items[k])
    ensures |lines| == |items|
    ensures forall k :: 0 <= k < |items| ==> lines[k] == render(items[k])
  {
    lines := [];
    for n := 0 to |items|
      invariant |lines| == n
      invariant forall k :: 0 <= k < n ==> lines[k] == render(items[k])
    {
      lines := lines + [render(items[n])];
    }
  }
}
