/** Decoding: 32-character binary lines become instructions or data words, and a program
    splits into its instruction segment (up to and including the first BREAK) and the data
    segment that follows. */
module Decoder {
  import opened Bits
  import opened Opcodes

  type RegIndex = r: int | 0 <= r < 32

  /** A decoded instruction: one variant per format, each with only its own fields. */
  datatype Instr =
    | RFormat(rop: ROp, rm: RegIndex, shamt: nat, rn: RegIndex, rd: RegIndex)
    | DFormat(dop: DOp, address: nat, rn: RegIndex, rd: RegIndex)
    | IFormat(iop: IOp, imm: int, rn: RegIndex, rd: RegIndex)
    | IMFormat(imop: IMOp, shiftCode: nat, field: nat, rd: RegIndex)
    | CBFormat(cbop: CBOp, offset: int, rd: RegIndex)
    | BFormat(offset: int)
    | Nop
    | Break
    | Unrecognised

  /** The ranges the bit layout gives each field. */
  predicate WellFormed(ins: Instr)
  {
    match ins
    case RFormat(_, _, shamt, _, _) => shamt < 64
    case DFormat(_, address, _, _) => address < 512
    case IFormat(_, imm, _, _) => -0x800 <= imm < 0x800
    case IMFormat(_, shiftCode, field, _) => shiftCode in {0, 16, 32, 48} && field < 0x1_0000
    case CBFormat(_, offset, _) => -0x4_0000 <= offset < 0x4_0000
    case BFormat(offset) => -0x200_0000 <= offset < 0x200_0000
    case _ => true
  }

  /** The class an instruction was decoded from. */
  function ClassOf(ins: Instr): OpClass
  {
    match ins
    case RFormat(op, _, _, _, _) => RClass(op)
    case DFormat(op, _, _, _) => DClass(op)
    case IFormat(op, _, _, _) => IClass(op)
    case IMFormat(op, _, _, _) => IMClass(op)
    case CBFormat(op, _, _) => CBClass(op)
    case BFormat(_) => BClass
    case Nop => NopClass
    case Break => BreakClass
    case Unrecognised => NoClass
  }

  /** A line of the program decoded as an instruction, with its position (96, 100, ...). */
  datatype Instruction = Instruction(raw: string, word: Word, ins: Instr, pos: int)

  /** A line of the data segment: the word read as a signed 32-bit value. */
  datatype Data = Data(raw: string, value: Int32, pos: int)

  predicate IsBit(c: char)
  {
    c == '0' || c == '1'
  }

  predicate IsBinary(s: string)
  {
    forall i :: 0 <= i < |s| ==> IsBit(s[i])
  }

  /** What every input line is: exactly 32 characters of '0' and '1'. */
  predicate IsWordLine(s: string)
  {
    |s| == 32 && IsBinary(s)
  }

  /** Base-2 reading of a bit string, most significant bit first. */
  function ParseBinary(s: string): (v: nat)
    requires IsBinary(s)
    ensures v < Pow2(|s|)
  {
    if s == [] then 0
    else 2 * ParseBinary(s[..|s| - 1]) + (if s[|s| - 1] == '1' then 1 else 0)
  }

  /** The `width` low bits of `v`, most significant first: the inverse of `ParseBinary`. */
  function ToBinary(v: nat, width: nat): (s: string)
    ensures |s| == width && IsBinary(s)
  {
    if width == 0 then ""
    else ToBinary(v / 2, width - 1) + (if v % 2 == 1 then "1" else "0")
  }

  lemma {:induction false} BinaryRoundTrip(v: nat, width: nat)
    requires v < Pow2(width)
    ensures ParseBinary(ToBinary(v, width)) == v
  {
    if width > 0 {
      var s := ToBinary(v, width);
      assert s[..|s| - 1] == ToBinary(v / 2, width - 1);
      BinaryRoundTrip(v / 2, width - 1);
    }
  }

  lemma {:induction false} BinaryRoundTripText(s: string)
    requires IsBinary(s)
    ensures ToBinary(ParseBinary(s), |s|) == s
  {
    if s != [] {
      var init := s[..|s| - 1];
      BinaryRoundTripText(init);
      var v := ParseBinary(s);
      assert v / 2 == ParseBinary(init);
    }
  }

  /** BinaryToUnsignedInt on an input line. */
  function LineValue(line: string): Word
    requires IsWordLine(line)
  {
    Pow2Values();
    ParseBinary(line)
  }

  /** Nothing of the line is lost: its value spelled as 32 bits is the line itself. */
  lemma LineValueSpellsLine(line: string)
    requires IsWordLine(line)
    ensures ToBinary(LineValue(line), 32) == line
  {
    BinaryRoundTripText(line);
  }

  /** Reference reading of an N-bit field as two's complement, given the weight
      `signBit` = 2^(N-1) of its top bit. */
  function SignExtend(field: nat, signBit: int): (v: int)
    requires 0 < signBit && field < 2 * signBit
    ensures -signBit <= v < signBit
    ensures v == field || v == field - 2 * signBit
  {
    if field < signBit then field else field - 2 * signBit
  }

  /** The N-bit field that holds `v` in two's complement. */
  function ToTwos(v: int, signBit: int): (field: nat)
    requires 0 < signBit && -signBit <= v < signBit
    ensures field < 2 * signBit
  {
    if v < 0 then v + 2 * signBit else v
  }

  lemma SignExtendToTwos(v: int, signBit: int)
    requires 0 < signBit && -signBit <= v < signBit
    ensures SignExtend(ToTwos(v, signBit), signBit) == v
  {
  }

  /** Go's `^x` on the uint64 holding a word. */
  function Complement(w: Word): nat
  {
    TWO_64 - 1 - w
  }

  /** TwosComplement as the source writes it: it tests bit 0 (not the sign bit) and, when
      it is set, negates one more than the int32 reading of the complement. Every step is
      an int32 operation. Both branches agree all the same: the result is the word read
      as 32-bit two's complement. */
  function TwosComplement(value: Word): (r: Int32)
    ensures r == SignExtend(value, TWO_31)
  {
    if value % 2 != 0 then
      var c := Complement(value);
      var a := Wrap32(c);
      var x := Wrap32(a + 1);
      assert Wrap32(x * -1) == SignExtend(value, TWO_31) by {
        assert (a + 1) % TWO_32 == (c + 1) % TWO_32 by {
          ShiftCongruent(a, c, 1);
        }
        assert (x * -1) % TWO_32 == (-(c + 1)) % TWO_32 by {
          NegCongruent(x, c + 1);
        }
        assert -(c + 1) == value - TWO_32 * TWO_32;
        Peel(-TWO_32, value, TWO_32);
        Wrap32Congruent(x * -1, value);
      }
      Wrap32(x * -1)
    else Wrap32(value)
  }

  lemma ShiftCongruent(a: int, b: int, d: int)
    requires a % TWO_32 == b % TWO_32
    ensures (a + d) % TWO_32 == (b + d) % TWO_32
  {
    Peel(a / TWO_32, a % TWO_32 + 0, TWO_32);
    var r := (a % TWO_32 + d) % TWO_32;
    var q := (a % TWO_32 + d) / TWO_32;
    Peel(a / TWO_32 + q, r, TWO_32);
    Peel(b / TWO_32 + q, r, TWO_32);
  }

  lemma NegCongruent(a: int, b: int)
    requires a % TWO_32 == b % TWO_32
    ensures (a * -1) % TWO_32 == (-b) % TWO_32
  {
    var r := a % TWO_32;
    if r == 0 {
      Peel(-(a / TWO_32), 0, TWO_32);
      Peel(-(b / TWO_32), 0, TWO_32);
    } else {
      Peel(-(a / TWO_32) - 1, TWO_32 - r, TWO_32);
      Peel(-(b / TWO_32) - 1, TWO_32 - r, TWO_32);
    }
  }

  /** I-format immediate as the source computes it: bit 21 is the sign; a clear sign keeps
      bits 10-20, a set sign gives minus one more than their complement. */
  function Immediate(w: Word): (imm: int)
    ensures -0x800 <= imm < 0x800
  {
    if (w / 0x20_0000) % 2 == 0 then (w / 0x400) % 0x800
    else -((Complement(w) / 0x400) % 0x800 + 1)
  }

  /** CB-format offset: bit 23 is the sign over the magnitude in bits 5-22. */
  function CondBranchOffset(w: Word): (offset: int)
    ensures -0x4_0000 <= offset < 0x4_0000
  {
    if (w / 0x80_0000) % 2 == 0 then (w / 0x20) % 0x4_0000
    else -((Complement(w) / 0x20) % 0x4_0000 + 1)
  }

  /** B-format offset: bit 25 is the sign over the magnitude in bits 0-24. */
  function BranchOffset(w: Word): (offset: int)
    ensures -0x200_0000 <= offset < 0x200_0000
  {
    if (w / 0x200_0000) % 2 == 0 then w % 0x200_0000
    else -(Complement(w) % 0x200_0000 + 1)
  }

  /** Complementing a number below `k * m` complements both its quotient and its
      remainder by `k`. */
  lemma ComplementDigits(x: int, k: int, m: int)
    requires k > 0 && m > 0 && 0 <= x < k * m
    ensures x / k < m
    ensures (k * m - 1 - x) / k == m - 1 - x / k
    ensures (k * m - 1 - x) % k == k - 1 - x % k
  {
    var q, r := x / k, x % k;
    assert q < m by {
      DivBelow(x, k, m);
    }
    assert k * m - 1 - x == (m - 1 - q) * k + (k - 1 - r) by {
      assert x == q * k + r;
      Distribute(m, -1 - q, k);
      Distribute(-1, -q, k);
    }
    Peel(m - 1 - q, k - 1 - r, k);
  }

  /** Inside a field, the complement of the word holds the complement of the field:
      the magnitude bits of `^w` from bit `shift` on are `signBit - 1` minus those of `w`. */
  lemma ComplementField(w: Word, shift: int, signBit: int, m: int, n: int)
    requires shift > 0 && signBit > 0 && n > 0
    requires TWO_64 == shift * m && m == signBit * n
    ensures (Complement(w) / shift) % signBit == signBit - 1 - (w / shift) % signBit
  {
    var y := w / shift;
    ComplementDigits(w, shift, m);
    assert Complement(w) / shift == m - 1 - y;
    ComplementDigits(y, signBit, n);
  }

  /** A field of width N+1 splits into its top bit and its N low bits. */
  lemma FieldTop(w: Word, shift: int, signBit: int)
    requires shift > 0 && signBit > 0
    ensures (w / shift) % (2 * signBit) == ((w / (shift * signBit)) % 2) * signBit + (w / shift) % signBit
  {
    DivDiv(w, shift, signBit);
    TopBit(w / shift, signBit);
  }

  /** The immediate is bits 10-21 read as 12-bit two's complement. */
  lemma ImmediateIsSigned12(w: Word)
    ensures Immediate(w) == SignExtend((w / 0x400) % 0x1000, 0x800)
  {
    ComplementField(w, 0x400, 0x800, TWO_64 / 0x400, TWO_64 / 0x400 / 0x800);
    FieldTop(w, 0x400, 0x800);
  }

  /** The CB offset is bits 5-23 read as 19-bit two's complement. */
  lemma CondBranchOffsetIsSigned19(w: Word)
    ensures CondBranchOffset(w) == SignExtend((w / 0x20) % 0x8_0000, 0x4_0000)
  {
    ComplementField(w, 0x20, 0x4_0000, TWO_64 / 0x20, TWO_64 / 0x20 / 0x4_0000);
    FieldTop(w, 0x20, 0x4_0000);
  }

  /** The B offset is bits 0-25 read as 26-bit two's complement. */
  lemma BranchOffsetIsSigned26(w: Word)
    ensures BranchOffset(w) == SignExtend(w % 0x400_0000, 0x200_0000)
  {
    var low := w % 0x200_0000;
    assert w % 0x400_0000 == ((w / 0x200_0000) % 2) * 0x200_0000 + low by {
      TopBit(w, 0x200_0000);
    }
    assert Complement(w) % 0x200_0000 == 0x200_0000 - 1 - low by {
      ComplementDigits(w, 0x200_0000, TWO_64 / 0x200_0000);
    }
  }

  /** ParseInstructionParameters: the fields of each format by shift and mask. */
  function DecodeFields(w: Word, c: OpClass): (ins: Instr)
    ensures WellFormed(ins)
    ensures ClassOf(ins) == c
  {
    match c
    case RClass(op) => RFormat(op, (w / 0x1_0000) % 0x20, (w / 0x400) % 0x40, (w / 0x20) % 0x20, w % 0x20)
    case DClass(op) => DFormat(op, (w / 0x1000) % 0x200, (w / 0x20) % 0x20, w % 0x20)
    case IClass(op) => IFormat(op, Immediate(w), (w / 0x20) % 0x20, w % 0x20)
    case IMClass(op) => IMFormat(op, 16 * ((w / 0x20_0000) % 4), (w / 0x20) % 0x1_0000, w % 0x20)
    case CBClass(op) => CBFormat(op, CondBranchOffset(w), w % 0x20)
    case BClass => BFormat(BranchOffset(w))
    case NopClass => Nop
    case BreakClass => Break
    case NoClass => Unrecognised
  }

  /** Classification followed by field extraction. The instruction has the class whose
      pattern the word's leading bits carry, and is `Unrecognised` exactly when no
      pattern matches them. */
  function Decode(w: Word): (ins: Instr)
    ensures WellFormed(ins)
    ensures forall c :: Encodes(c, Top11(w)) ==> ClassOf(ins) == c
    ensures ins.Unrecognised? <==> forall c :: !Encodes(c, Top11(w))
  {
    DecodeFields(w, ValueToOpAndType(w))
  }

  /** BinaryToInstruction: the line's word, whose 32 bits spell the line, classified and
      cut into fields. What `Decode` promises therefore holds of every instruction of a
      program. The position is filled in by the program split. */
  function BinaryToInstruction(line: string): (i: Instruction)
    requires IsWordLine(line)
    ensures i.raw == line && i.word == LineValue(line) && ToBinary(i.word, 32) == line
    ensures i.ins == Decode(i.word) && i.pos == 0
  {
    var w := LineValue(line);
    LineValueSpellsLine(line);
    Instruction(line, w, Decode(w), 0)
  }

  /** BinaryToData: the line read as a signed 32-bit value. */
  function BinaryToData(line: string): (d: Data)
    requires IsWordLine(line)
    ensures d.raw == line
    ensures d.value == SignExtend(LineValue(line), TWO_31)
  {
    Data(line, TwosComplement(LineValue(line)), 0)
  }

  /** The position of the k-th line of the program. */
  function PositionOf(k: nat): int
  {
    96 + 4 * k
  }

  predicate IsBreakLine(line: string)
    requires IsWordLine(line)
  {
    BinaryToInstruction(line).ins.Break?
  }

  /** Reference for the split: the first `n` lines form the instruction segment when no
      BREAK comes before line n-1, and the segment ends early only at a BREAK. */
  predicate SplitsAt(lines: seq<string>, n: nat)
    requires forall k :: 0 <= k < |lines| ==> IsWordLine(lines[k])
  {
    && n <= |lines|
    && (forall k :: 0 <= k < n - 1 ==> !IsBreakLine(lines[k]))
    && (n < |lines| ==> n >= 1 && IsBreakLine(lines[n - 1]))
  }

  /** A program splits in exactly one place. */
  lemma SplitUnique(lines: seq<string>, n: nat, m: nat)
    requires forall k :: 0 <= k < |lines| ==> IsWordLine(lines[k])
    requires SplitsAt(lines, n) && SplitsAt(lines, m)
    ensures n == m
  {
  }

  /** A line decoded as an instruction at a given position. */
  function InstructionLine(line: string, pos: int): Instruction
    requires IsWordLine(line)
  {
    BinaryToInstruction(line).(pos := pos)
  }

  /** A line decoded as a data word at a given position. */
  function DataLine(line: string, pos: int): Data
    requires IsWordLine(line)
  {
    BinaryToData(line).(pos := pos)
  }

  predicate IsBreak(i: Instruction)
  {
    i.ins.Break?
  }

  /** The k-th line decoded as an instruction at its position. */
  function InstructionAt(lines: seq<string>, k: nat): Instruction
    requires k < |lines| && IsWordLine(lines[k])
  {
    InstructionLine(lines[k], PositionOf(k))
  }

  /** The k-th line decoded as a data word at its position. */
  function DataAt(lines: seq<string>, k: nat): Data
    requires k < |lines| && IsWordLine(lines[k])
  {
    DataLine(lines[k], PositionOf(k))
  }

  /** ConvertLinesToInstructions: every line before and including the first BREAK becomes
      an instruction, every later line a data word; positions run 96, 100, ... across
      both segments. */
  method ConvertLinesToInstructions(lines: seq<string>) returns (instructions: seq<Instruction>, data: seq<Data>)
    requires forall k :: 0 <= k < |lines| ==> IsWordLine(lines[k])
    ensures |instructions| + |data| == |lines|
    ensures SplitsAt(lines, |instructions|)
    ensures forall k :: 0 <= k < |instructions| ==> instructions[k] == InstructionAt(lines, k)
    ensures forall k :: 0 <= k < |data| ==> data[k] == DataAt(lines, |instructions| + k)
    ensures data != [] ==> instructions != [] && instructions[|instructions| - 1].ins.Break?
    ensures (forall k :: 0 <= k < |lines| ==> !IsBreakLine(lines[k])) ==> data == []
  {
    instructions, data := SplitLines(lines, InstructionLine, DataLine, IsBreak);
    SplitOfDecoded(lines, instructions);
  }

  /** The loop of ConvertLinesToInstructions, apart from how a line is decoded: lines become
      instructions until one of them is a BREAK, and data words after it, each decoded with
      its position. */
  method SplitLines<I, D>(lines: seq<string>, asInstruction: (string, int) --> I,
                          asData: (string, int) --> D, isBreak: I -> bool)
    returns (instructions: seq<I>, data: seq<D>)
    requires forall k :: 0 <= k < |lines| ==>
      asInstruction.requires(lines[k], PositionOf(k)) && asData.requires(lines[k], PositionOf(k))
    ensures |instructions| + |data| == |lines|
    ensures forall k :: 0 <= k < |instructions| ==> instructions[k] == asInstruction(lines[k], PositionOf(k))
    ensures forall k :: 0 <= k < |data| ==>
      data[k] == asData(lines[|instructions| + k], PositionOf(|instructions| + k))
    ensures forall k :: 0 <= k < |instructions| - 1 ==> !isBreak(instructions[k])
    ensures |instructions| < |lines| ==> |instructions| >= 1 && isBreak(instructions[|instructions| - 1])
  {
    instructions, data := [], [];
    var haveEncounteredBreak := false;
    var programCount := 96;
    for n := 0 to |lines|
      invariant programCount == PositionOf(n)
      invariant |instructions| + |data| == n
      invariant !haveEncounteredBreak ==> |instructions| == n
      invariant haveEncounteredBreak <==> |instructions| >= 1 && isBreak(instructions[|instructions| - 1])
      invariant forall k :: 0 <= k < |instructions| - 1 ==> !isBreak(instructions[k])
      invariant forall k :: 0 <= k < |instructions| ==> instructions[k] == asInstruction(lines[k], PositionOf(k))
      invariant forall k :: 0 <= k < |data| ==>
        data[k] == asData(lines[|instructions| + k], PositionOf(|instructions| + k))
    {
      var line := lines[n];
      if haveEncounteredBreak {
        data := data + [asData(line, programCount)];
      } else {
        var i := asInstruction(line, programCount);
        instructions := instructions + [i];
        haveEncounteredBreak := isBreak(i);
      }
      programCount := programCount + 4;
    }
  }

  /** The instruction segment of the split method, read back through the reference. */
  lemma SplitOfDecoded(lines: seq<string>, instructions: seq<Instruction>)
    requires forall k :: 0 <= k < |lines| ==> IsWordLine(lines[k])
    requires |instructions| <= |lines|
    requires forall k :: 0 <= k < |instructions| ==> instructions[k] == InstructionAt(lines, k)
    requires forall k :: 0 <= k < |instructions| - 1 ==> !instructions[k].ins.Break?
    requires |instructions| < |lines| ==> |instructions| >= 1 && instructions[|instructions| - 1].ins.Break?
    ensures SplitsAt(lines, |instructions|)
    ensures (forall k :: 0 <= k < |lines| ==> !IsBreakLine(lines[k])) ==> |instructions| == |lines|
  {
    assert forall k :: 0 <= k < |instructions| ==> (instructions[k].ins.Break? <==> IsBreakLine(lines[k]));
  }
}
