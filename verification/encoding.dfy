/** The inverse of the decoder: a decoded instruction assembled back into its word.
    Decoding an encoding gives the instruction back, and encoding a decoding gives the
    word back wherever the format keeps every bit (all but D, which drops bits 10-11,
    and NOP and BREAK, which keep only their opcode). */
module Encoding {
  import opened Bits
  import opened Opcodes
  import opened Decoder

  /** The word that holds a well-formed instruction; the bits a format does not read are
      zero, and an unrecognised instruction gets a word with an unused opcode. */
  function Encode(ins: Instr): (w: Word)
    requires WellFormed(ins)
  {
    match ins
    case RFormat(op, rm, shamt, rn, rd) =>
      ROpcode(op) * 0x20_0000 + rm * 0x1_0000 + shamt * 0x400 + rn * 0x20 + rd
    case DFormat(op, address, rn, rd) =>
      DOpcode(op) * 0x20_0000 + address * 0x1000 + rn * 0x20 + rd
    case IFormat(op, imm, rn, rd) =>
      IOpcode(op) * 0x40_0000 + ToTwos(imm, 0x800) * 0x400 + rn * 0x20 + rd
    case IMFormat(op, shiftCode, field, rd) =>
      IMOpcode(op) * 0x80_0000 + (shiftCode / 16) * 0x20_0000 + field * 0x20 + rd
    case CBFormat(op, offset, rd) =>
      CBOpcode(op) * 0x100_0000 + ToTwos(offset, 0x4_0000) * 0x20 + rd
    case BFormat(offset) =>
      BPrefix * 0x400_0000 + ToTwos(offset, 0x200_0000)
    case Nop => 0
    case Break => BreakOpcode * 0x20_0000
    case Unrecognised => 0x20_0000
  }

  /** A word is its high part, one field, and its low part. */
  lemma Digits(w: int, k: int, m: int)
    requires w >= 0 && k > 0 && m > 0
    ensures w == (w / (k * m)) * (k * m) + ((w / k) % m) * k + w % k
  {
    DivDiv(w, k, m);
    var q := w / k;
    assert q == (q / m) * m + q % m;
    assert w == q * k + w % k;
    assert q * k == (q / m) * (m * k) + (q % m) * k;
  }

  /** The R-format word is exactly its opcode and the four fields laid side by side,
      and every register index it names is below 32. */
  lemma RFormatReassembles(w: Word)
    requires Decode(w).RFormat?
    ensures var ins := Decode(w);
      w == ROpcode(ins.rop) * 0x20_0000 + ins.rm * 0x1_0000 + ins.shamt * 0x400 + ins.rn * 0x20 + ins.rd
    ensures Decode(w).rm < 32 && Decode(w).rn < 32 && Decode(w).rd < 32
  {
    Digits(w, 0x20, 0x20);
    Digits(w / 0x400, 0x40, 0x20);
    DivDiv(w, 0x400, 0x40);
    DivDiv(w, 0x400, 0x800);
    DivDiv(w, 0x1_0000, 0x20);
    Digits(w, 0x400, 1);
  }

  /** D-format keeps every bit but 10 and 11. */
  lemma DFormatReassembles(w: Word)
    requires Decode(w).DFormat?
    ensures var ins := Decode(w);
      w == DOpcode(ins.dop) * 0x20_0000 + ins.address * 0x1000 + ((w / 0x400) % 4) * 0x400
        + ins.rn * 0x20 + ins.rd
  {
    Digits(w, 0x20, 0x20);
    Digits(w / 0x400, 4, 0x200);
    DivDiv(w, 0x400, 4);
    DivDiv(w, 0x400, 0x800);
    DivDiv(w, 0x1000, 0x200);
    Digits(w, 0x400, 1);
  }

  /** I-format: opcode, the immediate's 12 bits, and two registers cover the word. */
  lemma IFormatReassembles(w: Word)
    requires Decode(w).IFormat?
    ensures var ins := Decode(w);
      w == IOpcode(ins.iop) * 0x40_0000 + ToTwos(ins.imm, 0x800) * 0x400 + ins.rn * 0x20 + ins.rd
  {
    ImmediateIsSigned12(w);
    Digits(w, 0x20, 0x20);
    DivDiv(w, 0x400, 0x1000);
    DivDiv(w, 0x20_0000, 2);
    Digits(w, 0x400, 1);
  }

  /** IM-format: opcode, shift code, the 16-bit field and the register cover the word. */
  lemma IMFormatReassembles(w: Word)
    requires Decode(w).IMFormat?
    ensures var ins := Decode(w);
      w == IMOpcode(ins.imop) * 0x80_0000 + (ins.shiftCode / 16) * 0x20_0000 + ins.field * 0x20 + ins.rd
  {
    Digits(w, 0x20, 0x1_0000);
    DivDiv(w, 0x20_0000, 4);
    Digits(w / 0x20_0000, 1, 4);
  }

  /** CB-format: opcode, the offset's 19 bits and the register cover the word. */
  lemma CBFormatReassembles(w: Word)
    requires Decode(w).CBFormat?
    ensures var ins := Decode(w);
      w == CBOpcode(ins.cbop) * 0x100_0000 + ToTwos(ins.offset, 0x4_0000) * 0x20 + ins.rd
  {
    CondBranchOffsetIsSigned19(w);
    Digits(w, 0x20, 0x8_0000);
    DivDiv(w, 0x20_0000, 8);
  }

  /** B-format: the 6-bit prefix and the offset's 26 bits cover the word. */
  lemma BFormatReassembles(w: Word)
    requires Decode(w).BFormat?
    ensures w == BPrefix * 0x400_0000 + ToTwos(Decode(w).offset, 0x200_0000)
  {
    BranchOffsetIsSigned26(w);
    DivDiv(w, 0x20_0000, 32);
  }

  /** Encoding a decoded word gives the word back, except for the bits the format does
      not read: bits 10-11 of a D-format word, and everything below the opcode of NOP,
      BREAK and an unrecognised word. */
  lemma EncodeDecode(w: Word)
    ensures var ins := Decode(w);
      (ins.RFormat? || ins.IFormat? || ins.IMFormat? || ins.CBFormat? || ins.BFormat?) ==> Encode(ins) == w
    ensures Decode(w).DFormat? ==> Encode(Decode(w)) == w - ((w / 0x400) % 4) * 0x400
  {
    var ins := Decode(w);
    match ins
    case RFormat(_, _, _, _, _) => RFormatReassembles(w);
    case DFormat(_, _, _, _) => DFormatReassembles(w);
    case IFormat(_, _, _, _) => IFormatReassembles(w);
    case IMFormat(_, _, _, _) => IMFormatReassembles(w);
    case CBFormat(_, _, _) => CBFormatReassembles(w);
    case BFormat(_) => BFormatReassembles(w);
    case _ =>
  }

  /** Decoding the encoding of a well-formed instruction gives the instruction back. */
  lemma DecodeEncode(ins: Instr)
    requires WellFormed(ins)
    ensures Decode(Encode(ins)) == ins
  {
    match ins
    case RFormat(op, rm, shamt, rn, rd) => DecodeEncodeR(op, rm, shamt, rn, rd);
    case DFormat(op, address, rn, rd) => DecodeEncodeD(op, address, rn, rd);
    case IFormat(op, imm, rn, rd) => DecodeEncodeI(op, imm, rn, rd);
    case IMFormat(op, shiftCode, field, rd) => DecodeEncodeIM(op, shiftCode, field, rd);
    case CBFormat(op, offset, rd) => DecodeEncodeCB(op, offset, rd);
    case BFormat(offset) => DecodeEncodeB(offset);
    case _ => DecodeEncodeFixed(ins);
  }

  /** The formats without fields: NOP, BREAK and the unrecognised word. */
  lemma DecodeEncodeFixed(ins: Instr)
    requires ins.Nop? || ins.Break? || ins.Unrecognised?
    ensures Decode(Encode(ins)) == ins
  {
    var w := Encode(ins);
    match ins
    case Nop =>
      assert Encodes(NopClass, Top11(w));
    case Break =>
      assert Encodes(BreakClass, Top11(w)) by {
        Peel(BreakOpcode, 0, 0x20_0000);
      }
    case Unrecognised =>
      assert Top11(w) == 1;
  }

  lemma DecodeEncodeR(op: ROp, rm: RegIndex, shamt: nat, rn: RegIndex, rd: RegIndex)
    requires shamt < 64
    ensures Decode(Encode(RFormat(op, rm, shamt, rn, rd))) == RFormat(op, rm, shamt, rn, rd)
  {
    var w := Encode(RFormat(op, rm, shamt, rn, rd));
    Peel(ROpcode(op), rm * 0x1_0000 + shamt * 0x400 + rn * 0x20 + rd, 0x20_0000);
    FieldOf(w, ROpcode(op), rm, shamt * 0x400 + rn * 0x20 + rd, 0x1_0000, 0x20);
    FieldOf(w, ROpcode(op) * 0x20 + rm, shamt, rn * 0x20 + rd, 0x400, 0x40);
    FieldOf(w, ROpcode(op) * 0x800 + rm * 0x40 + shamt, rn, rd, 0x20, 0x20);
  }

  lemma DecodeEncodeD(op: DOp, address: nat, rn: RegIndex, rd: RegIndex)
    requires address < 512
    ensures Decode(Encode(DFormat(op, address, rn, rd))) == DFormat(op, address, rn, rd)
  {
    var w := Encode(DFormat(op, address, rn, rd));
    assert ValueToOpAndType(w) == DClass(op) by {
      Peel(DOpcode(op), address * 0x1000 + rn * 0x20 + rd, 0x20_0000);
    }
    assert (w / 0x1000) % 0x200 == address by {
      FieldOf(w, DOpcode(op), address, rn * 0x20 + rd, 0x1000, 0x200);
    }
    assert (w / 0x20) % 0x20 == rn && w % 0x20 == rd by {
      FieldOf(w, DOpcode(op) * 0x800 + address * 4, rn, rd, 0x20, 0x20);
    }
  }

  lemma DecodeEncodeI(op: IOp, imm: int, rn: RegIndex, rd: RegIndex)
    requires -0x800 <= imm < 0x800
    ensures Decode(Encode(IFormat(op, imm, rn, rd))) == IFormat(op, imm, rn, rd)
  {
    var w := Encode(IFormat(op, imm, rn, rd));
    var f := ToTwos(imm, 0x800);
    assert ValueToOpAndType(w) == IClass(op) by {
      FieldOf(w, IOpcode(op), f / 0x800, (f % 0x800) * 0x400 + rn * 0x20 + rd, 0x20_0000, 2);
    }
    assert Immediate(w) == imm by {
      FieldOf(w, IOpcode(op), f, rn * 0x20 + rd, 0x400, 0x1000);
      ImmediateIsSigned12(w);
      SignExtendToTwos(imm, 0x800);
    }
    assert (w / 0x20) % 0x20 == rn && w % 0x20 == rd by {
      FieldOf(w, IOpcode(op) * 0x1000 + f, rn, rd, 0x20, 0x20);
    }
  }

  lemma DecodeEncodeIM(op: IMOp, shiftCode: nat, field: nat, rd: RegIndex)
    requires shiftCode in {0, 16, 32, 48} && field < 0x1_0000
    ensures Decode(Encode(IMFormat(op, shiftCode, field, rd))) == IMFormat(op, shiftCode, field, rd)
  {
    var w := Encode(IMFormat(op, shiftCode, field, rd));
    assert ValueToOpAndType(w) == IMClass(op) && 16 * ((w / 0x20_0000) % 4) == shiftCode by {
      FieldOf(w, IMOpcode(op), shiftCode / 16, field * 0x20 + rd, 0x20_0000, 4);
      assert Encodes(IMClass(op), Top11(w));
    }
    assert (w / 0x20) % 0x1_0000 == field && w % 0x20 == rd by {
      FieldOf(w, IMOpcode(op) * 4 + shiftCode / 16, field, rd, 0x20, 0x1_0000);
    }
  }

  lemma DecodeEncodeCB(op: CBOp, offset: int, rd: RegIndex)
    requires -0x4_0000 <= offset < 0x4_0000
    ensures Decode(Encode(CBFormat(op, offset, rd))) == CBFormat(op, offset, rd)
  {
    var w := Encode(CBFormat(op, offset, rd));
    var f := ToTwos(offset, 0x4_0000);
    assert ValueToOpAndType(w) == CBClass(op) by {
      FieldOf(w, CBOpcode(op), f / 0x1_0000, (f % 0x1_0000) * 0x20 + rd, 0x20_0000, 8);
      assert Encodes(CBClass(op), Top11(w));
    }
    assert CondBranchOffset(w) == offset && w % 0x20 == rd by {
      FieldOf(w, CBOpcode(op), f, rd, 0x20, 0x8_0000);
      CondBranchOffsetIsSigned19(w);
      SignExtendToTwos(offset, 0x4_0000);
    }
  }

  lemma DecodeEncodeB(offset: int)
    requires -0x200_0000 <= offset < 0x200_0000
    ensures Decode(Encode(BFormat(offset))) == BFormat(offset)
  {
    var w := Encode(BFormat(offset));
    var f := ToTwos(offset, 0x200_0000);
    assert ValueToOpAndType(w) == BClass by {
      FieldOf(w, BPrefix, f / 0x20_0000, f % 0x20_0000, 0x20_0000, 32);
      assert Encodes(BClass, Top11(w));
    }
    assert BranchOffset(w) == offset by {
      Peel(BPrefix, f, 0x400_0000);
      BranchOffsetIsSigned26(w);
      SignExtendToTwos(offset, 0x200_0000);
    }
  }

  /** A D-format word decodes the same whatever its bits 10 and 11 hold. */
  lemma DFormatIgnoresBits10To11(w: Word, w': Word)
    requires Decode(w).DFormat?
    requires w / 0x1000 == w' / 0x1000 && w % 0x400 == w' % 0x400
    ensures Decode(w') == Decode(w)
  {
    DivDiv(w, 0x1000, 0x200);
    DivDiv(w', 0x1000, 0x200);
    DivDiv(w, 0x20, 0x20);
    DivDiv(w', 0x20, 0x20);
    assert Top11(w) == Top11(w');
  }
}
