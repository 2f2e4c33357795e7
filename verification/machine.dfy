/** The simulator's state and the effect of one instruction on it: 32 int64 registers, the
    data segment as a list of (position, value) entries, and for each instruction the new
    state and how far the program moves (1, or a branch offset). */
module Machine {
  import opened Bits
  import opened Opcodes
  import opened Decoder

  /** The 32 general registers, each a Go int64. */
  type Registers = r: seq<Int64> | |r| == 32 witness seq(32, _ => 0)

  datatype Simulator = Simulator(registers: Registers, data: seq<Data>)

  /** The executor comes in two readings. `AsWritten` follows the source line by line,
      including three of its mistakes (a store that is lost, a load that takes the base
      register's index for its value, and MOVK's arithmetic); `Intended` repairs exactly
      those three and nothing else. */
  datatype Semantics = AsWritten | Intended

  /** The new state after one instruction, and the number of instructions to move by. */
  datatype Step = Step(sim: Simulator, delta: int)

  /** InitializeSimulator: all registers zero and a copy of the data segment. */
  function InitializeSimulator(data: seq<Data>): (sim: Simulator)
    ensures forall r :: 0 <= r < 32 ==> sim.registers[r] == 0
    ensures sim.data == data
  {
    Simulator(seq(32, _ => 0), data)
  }

  /** Entry `k` is the first one at `address`. */
  predicate FirstAt(data: seq<Data>, address: int, k: int)
  {
    && 0 <= k < |data|
    && data[k].pos == address
    && forall j :: 0 <= j < k ==> data[j].pos != address
  }

  /** GetDataFromAddress, on the data list: the value of the first entry at the address,
      and 0 when no entry is there. */
  function FindData(data: seq<Data>, address: int): Int32
  {
    if data == [] then 0
    else if data[0].pos == address then data[0].value
    else FindData(data[1..], address)
  }

  /** The lookup finds the first entry at the address, and reads 0 when none is there. */
  lemma {:induction false} FindDataMeaning(data: seq<Data>, address: int)
    ensures (forall k :: 0 <= k < |data| ==> data[k].pos != address) ==> FindData(data, address) == 0
    ensures forall k :: FirstAt(data, address, k) ==> FindData(data, address) == data[k].value
    decreases |data|
  {
    if data != [] && data[0].pos != address {
      FindDataMeaning(data[1..], address);
      assert forall k :: FirstAt(data, address, k) ==> k > 0 && FirstAt(data[1..], address, k - 1);
    }
  }

  /** GetDataFromAddress: the value of the first data entry at the address, or 0. */
  function GetDataFromAddress(sim: Simulator, address: int): (v: Int32)
    ensures (forall k :: 0 <= k < |sim.data| ==> sim.data[k].pos != address) ==> v == 0
    ensures forall k :: FirstAt(sim.data, address, k) ==> v == sim.data[k].value
  {
    FindDataMeaning(sim.data, address);
    FindData(sim.data, address)
  }

  /** PutDataIntoAddress as evidently meant: the first entry at the address takes the
      value, or a new entry holding it is appended. Every other address reads as before
      and no entry moves. */
  function Store(data: seq<Data>, address: int, value: Int32): (data': seq<Data>)
    ensures FindData(data', address) == value
    ensures forall a :: a != address ==> FindData(data', a) == FindData(data, a)
    ensures |data'| == |data| || |data'| == |data| + 1
    ensures forall k :: 0 <= k < |data| ==> data'[k].pos == data[k].pos
  {
    if data == [] then [Data("", value, address)]
    else if data[0].pos == address then [data[0].(value := value)] + data[1..]
    else
      var rest := Store(data[1..], address, value);
      assert ([data[0]] + rest)[1..] == rest;
      [data[0]] + rest
  }

  function SetRegister(sim: Simulator, r: RegIndex, v: Int64): (sim': Simulator)
    ensures sim'.registers[r] == v && sim'.data == sim.data
    ensures forall j :: 0 <= j < 32 && j != r ==> sim'.registers[j] == sim.registers[j]
  {
    sim.(registers := sim.registers[r := v])
  }

  /** The address LDUR and STUR use. As written it adds the scaled offset to the base
      register's index, in uint16 arithmetic; as intended, to the value the register holds. */
  function DataAddress(mode: Semantics, sim: Simulator, address: nat, rn: RegIndex): int
  {
    match mode
    case AsWritten => (rn + (address * 4) % 0x1_0000) % 0x1_0000
    case Intended => sim.registers[rn] + 4 * address
  }

  /** `int64(math.Pow(2, float64(shiftCode)))` for the shift codes an IM word can hold. */
  function ShiftWeight(shiftCode: nat): (p: Int64)
    requires shiftCode in {0, 16, 32, 48}
    ensures p == Pow2(shiftCode)
  {
    Pow2Values();
    if shiftCode == 0 then 1
    else if shiftCode == 16 then 0x1_0000
    else if shiftCode == 32 then 0x1_0000_0000
    else 0x1_0000_0000_0000
  }

  /** The R-format ALU: int64 addition and subtraction wrap, the bitwise operators act on
      the two's complement bits, LSL wraps, ASR keeps the sign and LSR shifts in zeros. */
  function ROpResult(op: ROp, a: Int64, b: Int64, shamt: nat): Int64
  {
    match op
    case ADD => Add64(a, b)
    case SUB => Sub64(a, b)
    case EOR => Xor64(a, b)
    case ORR => Or64(a, b)
    case AND => And64(a, b)
    case LSL => Shl64(a, shamt)
    case ASR => Asr64(a, shamt)
    case LSR => Lsr64(a, shamt)
  }

  /** MOVK as written: the old slice is read by shifting by the field (not the shift code)
      and subtracted without being scaled back to its place. The mask `& 0xFFFF` keeps the
      low 16 bits of the two's complement, which is the Euclidean remainder by 2^16. For
      every field of 64 or more the shift leaves only sign bits, so the register is not
      spliced at all: the field at the shift code is added to it, less 0xFFFF when the
      register is negative. */
  function MovkAsWritten(x: Int64, shiftCode: nat, field: nat): (r: Int64)
    requires shiftCode in {0, 16, 32, 48} && field < 0x1_0000
    ensures field >= 64 ==> r == Wrap64(x + field * Pow2(shiftCode) - (if x < 0 then 0xFFFF else 0))
  {
    var p := ShiftWeight(shiftCode);
    var oldField := Asr64(x, field) % 0x1_0000;
    var r := Sub64(Add64(x, Mul64(field, p)), oldField);
    if field < 64 then r else SignSliceSubtracted(x, field * p, field); r
  }

  /** Past bit 63 the arithmetic shift leaves only sign bits, so the masked "old field"
      that MOVK as written subtracts is 0xFFFF for a negative register and 0 otherwise. */
  lemma SignSliceSubtracted(x: Int64, m: int, field: nat)
    requires field >= 64
    ensures Sub64(Add64(x, Wrap64(m)), Asr64(x, field) % 0x1_0000)
      == Wrap64(x + m - (if x < 0 then 0xFFFF else 0))
  {
    var oldField := Asr64(x, field) % 0x1_0000;
    assert oldField == if x < 0 then 0xFFFF else 0 by {
      assert Asr64(x, field) == if x < 0 then -1 else 0;
    }
    AddSub64(x, m, oldField);
  }

  /** MOVK as intended: bits [shiftCode, shiftCode + 16) of the register become the field,
      and the bits below and above them stay. */
  function Movk(x: Int64, shiftCode: nat, field: nat): Int64
    requires shiftCode in {0, 16, 32, 48} && field < 0x1_0000
  {
    var p := ShiftWeight(shiftCode);
    var u := Unsigned64(x);
    Wrap64((u / (p * 0x1_0000)) * (p * 0x1_0000) + field * p + u % p)
  }

  /** The register an instruction writes, if any. */
  function Writes(ins: Instr): set<int>
  {
    match ins
    case RFormat(_, _, _, _, rd) => {rd}
    case IFormat(_, _, _, rd) => {rd}
    case IMFormat(_, _, _, rd) => {rd}
    case DFormat(op, _, _, rd) => if op == LDUR then {rd} else {}
    case _ => {}
  }

  /** Only B and the conditional branches move by anything but one instruction. */
  predicate IsBranch(ins: Instr)
  {
    ins.BFormat? || ins.CBFormat?
  }

  /** ApplyInstructionToSimulator. STUR as written goes through PutDataIntoAddress, which
      receives the simulator by value and updates a copy of the matching entry (or appends
      to its own copy of the list), so nothing reaches the caller: the state is unchanged. */
  function Apply(mode: Semantics, sim: Simulator, ins: Instr): (out: Step)
    requires WellFormed(ins)
    ensures forall r :: 0 <= r < 32 && r !in Writes(ins) ==> out.sim.registers[r] == sim.registers[r]
    ensures !(mode == Intended && ins.DFormat? && ins.dop == STUR) ==> out.sim.data == sim.data
    ensures !IsBranch(ins) ==> out.delta == 1
    ensures IsBranch(ins) ==> out.sim == sim
    ensures ins.BFormat? ==> out.delta == ins.offset
    ensures ins.CBFormat? ==>
      out.delta == (if (sim.registers[ins.rd] == 0) == (ins.cbop == CBZ) then ins.offset else 1)
  {
    match ins
    case RFormat(op, rm, shamt, rn, rd) =>
      Step(SetRegister(sim, rd, ROpResult(op, sim.registers[rn], sim.registers[rm], shamt)), 1)
    case IFormat(op, imm, rn, rd) =>
      var v := if op == ADDI then Add64(sim.registers[rn], imm) else Sub64(sim.registers[rn], imm);
      Step(SetRegister(sim, rd, v), 1)
    case DFormat(op, address, rn, rd) => Step(ApplyD(mode, sim, op, address, rn, rd), 1)
    case CBFormat(op, offset, rd) =>
      var taken := if op == CBZ then sim.registers[rd] == 0 else sim.registers[rd] != 0;
      Step(sim, if taken then offset else 1)
    case BFormat(offset) => Step(sim, offset)
    case IMFormat(op, shiftCode, field, rd) =>
      Step(SetRegister(sim, rd, ApplyIM(mode, sim.registers[rd], op, shiftCode, field)), 1)
    case _ => Step(sim, 1)
  }

  /** The address LDUR and STUR reach, in plain arithmetic: as written, the base
      register's index plus four times the offset, modulo 2^16 (the two uint16 conversions
      of `DataAddress` wrap only once); as intended, the value the register holds plus four
      times the offset. */
  function Reached(mode: Semantics, sim: Simulator, address: nat, rn: RegIndex): int
  {
    if mode == AsWritten then (rn + 4 * address) % 0x1_0000 else sim.registers[rn] + 4 * address
  }

  /** LDUR loads into `rd` the value of the first data entry at the address, or 0 when no
      entry is there, and changes nothing else. STUR never touches a register: as written
      it is lost, and as intended the address then reads the low 32 bits of `rd` while
      every other address reads as before. */
  function ApplyD(mode: Semantics, sim: Simulator, op: DOp, address: nat, rn: RegIndex, rd: RegIndex): (sim': Simulator)
    ensures op == LDUR ==> sim'.data == sim.data
    ensures op == LDUR ==> forall r :: 0 <= r < 32 && r != rd ==> sim'.registers[r] == sim.registers[r]
    ensures op == LDUR ==> forall k :: FirstAt(sim.data, Reached(mode, sim, address, rn), k) ==>
      sim'.registers[rd] == sim.data[k].value
    ensures op == LDUR && (forall k :: 0 <= k < |sim.data| ==> sim.data[k].pos != Reached(mode, sim, address, rn)) ==>
      sim'.registers[rd] == 0
    ensures op == STUR ==> sim'.registers == sim.registers
    ensures op == STUR && mode == AsWritten ==> sim' == sim
    ensures op == STUR && mode == Intended ==>
      FindData(sim'.data, Reached(mode, sim, address, rn)) == Wrap32(sim.registers[rd])
    ensures op == STUR && mode == Intended ==> forall a :: a != Reached(mode, sim, address, rn) ==>
      FindData(sim'.data, a) == FindData(sim.data, a)
  {
    var at := DataAddress(mode, sim, address, rn);
    assert at == Reached(mode, sim, address, rn) by {
      ModInner(rn, address * 4, 0x1_0000);
    }
    if op == LDUR then SetRegister(sim, rd, GetDataFromAddress(sim, at))
    else if mode == AsWritten then sim
    else sim.(data := Store(sim.data, at, Wrap32(sim.registers[rd])))
  }

  /** MOVZ places the field at the shift code; MOVK as written or as intended. */
  function ApplyIM(mode: Semantics, x: Int64, op: IMOp, shiftCode: nat, field: nat): Int64
    requires shiftCode in {0, 16, 32, 48} && field < 0x1_0000
  {
    if op == MOVZ then Mul64(field, ShiftWeight(shiftCode))
    else if mode == AsWritten then MovkAsWritten(x, shiftCode, field)
    else Movk(x, shiftCode, field)
  }

  /** The IM instructions on the register's old value `x`. MOVZ leaves exactly the field
      at the shift code in the register's 64 bits. MOVK as intended replaces the 16 bits at
      the shift code by the field and keeps the bits below and above; as written, for a
      field of 64 or more, it adds the field at the shift code instead, less 0xFFFF when
      the register is negative. */
  lemma IMMeaning(mode: Semantics, x: Int64, op: IMOp, shiftCode: nat, field: nat)
    requires shiftCode in {0, 16, 32, 48} && field < 0x1_0000
    ensures var r := ApplyIM(mode, x, op, shiftCode, field);
      op == MOVZ ==> Unsigned64(r) == field * Pow2(shiftCode)
    ensures var u, u' := Unsigned64(x), Unsigned64(ApplyIM(mode, x, op, shiftCode, field));
      var p := Pow2(shiftCode);
      op == MOVK && mode == Intended ==>
        && (u' / p) % 0x1_0000 == field
        && u' % p == u % p
        && u' / Pow2(shiftCode + 16) == u / Pow2(shiftCode + 16)
    ensures op == MOVK && mode == AsWritten && field >= 64 ==>
      ApplyIM(mode, x, op, shiftCode, field) == Wrap64(x + field * Pow2(shiftCode) - (if x < 0 then 0xFFFF else 0))
  {
    if op == MOVZ {
      MovzMeaning(field, shiftCode);
    } else if mode == Intended {
      ApplyMovkIntended(x, shiftCode, field);
    } else {
      ApplyMovkAsWritten(x, shiftCode, field);
    }
  }

  /** The repaired MOVK through `ApplyIM`: the field lands in the 16 bits at the shift
      code, and the bits below and above stay. */
  lemma ApplyMovkIntended(x: Int64, shiftCode: nat, field: nat)
    requires shiftCode in {0, 16, 32, 48} && field < 0x1_0000
    ensures var u, u' := Unsigned64(x), Unsigned64(ApplyIM(Intended, x, MOVK, shiftCode, field));
      var p := Pow2(shiftCode);
      && (u' / p) % 0x1_0000 == field
      && u' % p == u % p
      && u' / Pow2(shiftCode + 16) == u / Pow2(shiftCode + 16)
  {
    MovkSetsSlice(x, shiftCode, field);
  }

  /** MOVK as written through `ApplyIM`: for a field of 64 or more, the closed form of
      `MovkAsWritten`. */
  lemma ApplyMovkAsWritten(x: Int64, shiftCode: nat, field: nat)
    requires shiftCode in {0, 16, 32, 48} && field < 0x1_0000
    ensures field >= 64 ==>
      ApplyIM(AsWritten, x, MOVK, shiftCode, field) == Wrap64(x + field * Pow2(shiftCode) - (if x < 0 then 0xFFFF else 0))
  {
    var r := MovkAsWritten(x, shiftCode, field);
    var d := if x < 0 then 0xFFFF else 0;
    assert field >= 64 ==> r == Wrap64(x + field * Pow2(shiftCode) - d);
    assert ApplyIM(AsWritten, x, MOVK, shiftCode, field) == r;
  }

  /** The R-format results in arithmetic terms: ADD, SUB and LSL agree with the exact
      result modulo 2^64, ASR is floor division by 2^shamt (so it keeps the sign), and LSR
      divides the unsigned reading (so it brings in zeros). Every other register stays. */
  lemma ROpMeaning(mode: Semantics, sim: Simulator, op: ROp, rm: RegIndex, shamt: nat, rn: RegIndex, rd: RegIndex)
    requires shamt < 64
    ensures var r := Apply(mode, sim, RFormat(op, rm, shamt, rn, rd)).sim.registers[rd];
      var a, b := sim.registers[rn], sim.registers[rm];
      && (op == ADD ==> r % TWO_64 == (a + b) % TWO_64)
      && (op == SUB ==> r % TWO_64 == (a - b) % TWO_64)
      && (op == LSL ==> r % TWO_64 == (a * Pow2(shamt)) % TWO_64)
      && (op == ASR ==> r * Pow2(shamt) <= a < (r + 1) * Pow2(shamt) && (r < 0 <==> a < 0))
      && (op == LSR && shamt > 0 ==> 0 <= r && r * Pow2(shamt) <= Unsigned64(a) < (r + 1) * Pow2(shamt))
      && (op == LSR && shamt == 0 ==> r == a)
  {
    ApplyR(mode, sim, op, rm, shamt, rn, rd);
    ROpResultMeaning(op, sim.registers[rn], sim.registers[rm], shamt);
  }

  /** What an R-format instruction leaves in its register, in either reading. */
  lemma ApplyR(mode: Semantics, sim: Simulator, op: ROp, rm: RegIndex, shamt: nat, rn: RegIndex, rd: RegIndex)
    requires shamt < 64
    ensures Apply(mode, sim, RFormat(op, rm, shamt, rn, rd)).sim.registers[rd]
      == ROpResult(op, sim.registers[rn], sim.registers[rm], shamt)
  {
  }

  /** The R-format ALU results in arithmetic terms, one operator at a time. */
  lemma ROpResultMeaning(op: ROp, a: Int64, b: Int64, shamt: nat)
    requires shamt < 64
    ensures var r := ROpResult(op, a, b, shamt);
      && (op == ADD ==> r % TWO_64 == (a + b) % TWO_64)
      && (op == SUB ==> r % TWO_64 == (a - b) % TWO_64)
      && (op == LSL ==> r % TWO_64 == (a * Pow2(shamt)) % TWO_64)
      && (op == ASR ==> r * Pow2(shamt) <= a < (r + 1) * Pow2(shamt) && (r < 0 <==> a < 0))
      && (op == LSR && shamt > 0 ==> 0 <= r && r * Pow2(shamt) <= Unsigned64(a) < (r + 1) * Pow2(shamt))
      && (op == LSR && shamt == 0 ==> r == a)
  {
  }

  /** ADDI and SUBI add or subtract the sign-extended immediate, modulo 2^64. */
  lemma IOpMeaning(mode: Semantics, sim: Simulator, op: IOp, imm: int, rn: RegIndex, rd: RegIndex)
    requires -0x800 <= imm < 0x800
    ensures var r := Apply(mode, sim, IFormat(op, imm, rn, rd)).sim.registers[rd];
      && (op == ADDI ==> r % TWO_64 == (sim.registers[rn] + imm) % TWO_64)
      && (op == SUBI ==> r % TWO_64 == (sim.registers[rn] - imm) % TWO_64)
  {
  }

  /** The field placed at the shift code still fits in 64 unsigned bits. */
  lemma PlacedFieldFits(field: nat, shiftCode: nat)
    requires shiftCode in {0, 16, 32, 48} && field < 0x1_0000
    ensures 0 <= field * ShiftWeight(shiftCode) < TWO_64
  {
    var p: int := ShiftWeight(shiftCode);
    DigitBelow(field, 0, p, 0x1_0000);
    assert p * 0x1_0000 <= TWO_64;
  }

  /** The int64 product MOVZ computes holds the field at the shift code in its 64 bits. */
  lemma MovzMeaning(field: nat, shiftCode: nat)
    requires shiftCode in {0, 16, 32, 48} && field < 0x1_0000
    ensures Unsigned64(Mul64(field, ShiftWeight(shiftCode))) == field * Pow2(shiftCode)
  {
    PlacedFieldFits(field, shiftCode);
    UnsignedOfWrap(field * ShiftWeight(shiftCode));
  }

  /** MOVZ: the register's 64 bits are the field at the shift code and zeros elsewhere
      (the int64 product can come out negative when the field reaches bit 63). */
  lemma MovzPlacesField(mode: Semantics, sim: Simulator, shiftCode: nat, field: nat, rd: RegIndex)
    requires shiftCode in {0, 16, 32, 48} && field < 0x1_0000
    ensures var r := Apply(mode, sim, IMFormat(MOVZ, shiftCode, field, rd)).sim.registers[rd];
      Unsigned64(r) == field * Pow2(shiftCode)
  {
    MovzMeaning(field, shiftCode);
  }

  /** Putting `field` in place of the 16 bits at weight `p` of `u`: what is below and above
      stays, and the 16 bits read back as the field. */
  lemma Splice(u: int, p: int, k: int, m: int, field: int, n: int)
    requires p > 0 && m > 0 && k == p * 0x1_0000 && TWO_64 == k * m
    requires 0 <= u < TWO_64 && 0 <= field < 0x1_0000
    requires n == (u / k) * k + field * p + u % p
    ensures 0 <= n < TWO_64
    ensures (n / p) % 0x1_0000 == field && n % p == u % p && n / k == u / k
  {
    var hi, lo := u / k, u % p;
    DivBelow(u, k, m);
    DigitBelow(field, lo, p, 0x1_0000);
    DigitBelow(hi, field * p + lo, k, m);
    FieldOf(n, hi, field, lo, p, 0x1_0000);
    DivDiv(n, p, 0x1_0000);
    Peel(hi, field, 0x1_0000);
  }

  /** The weight of the 16 bits just above the shift code, and how often it fits in 2^64. */
  lemma WeightAbove(shiftCode: nat)
    requires shiftCode in {0, 16, 32, 48}
    ensures var k := ShiftWeight(shiftCode) * 0x1_0000;
      k == Pow2(shiftCode + 16) && k > 0 && TWO_64 == k * (TWO_64 / k)
  {
    Pow2Add(shiftCode, 16);
    Pow2Values();
    var k := ShiftWeight(shiftCode) * 0x1_0000;
    assert k == Pow2(shiftCode) * Pow2(16);
    if shiftCode == 0 {
      assert k == 0x1_0000;
    } else if shiftCode == 16 {
      assert k == 0x1_0000_0000;
    } else if shiftCode == 32 {
      assert k == 0x1_0000_0000_0000;
    } else {
      assert k == TWO_64;
    }
  }

  /** MOVK as intended sets bits [shiftCode, shiftCode + 16) to the field and keeps every
      other bit of the register. */
  lemma MovkSetsSlice(x: Int64, shiftCode: nat, field: nat)
    requires shiftCode in {0, 16, 32, 48} && field < 0x1_0000
    ensures var u, u' := Unsigned64(x), Unsigned64(Movk(x, shiftCode, field));
      var p := Pow2(shiftCode);
      && (u' / p) % 0x1_0000 == field
      && u' % p == u % p
      && u' / Pow2(shiftCode + 16) == u / Pow2(shiftCode + 16)
  {
    var p: int := ShiftWeight(shiftCode);
    var u := Unsigned64(x);
    var k := p * 0x1_0000;
    var n := (u / k) * k + field * p + u % p;
    assert Movk(x, shiftCode, field) == Wrap64(n);
    WeightAbove(shiftCode);
    Splice(u, p, k, TWO_64 / k, field, n);
    UnsignedOfWrap(n);
  }

  /** What MOVK leaves in its register, in either reading. */
  lemma ApplyMovk(mode: Semantics, sim: Simulator, shiftCode: nat, field: nat, rd: RegIndex)
    requires shiftCode in {0, 16, 32, 48} && field < 0x1_0000
    ensures Apply(mode, sim, IMFormat(MOVK, shiftCode, field, rd)).sim.registers[rd]
      == if mode == AsWritten then MovkAsWritten(sim.registers[rd], shiftCode, field)
         else Movk(sim.registers[rd], shiftCode, field)
  {
  }

  /** MOVK as written, on R0 = 0x1234 with MOVK R0, 0x5678, LSL 0: the shift by the field
      (22136 places) leaves no old slice to subtract, and the sum 0x68AC comes out
      instead of 0x5678. */
  lemma MovkAsWrittenAddsInstead()
    ensures var sim := SetRegister(InitializeSimulator([]), 0, 0x1234);
      var ins := IMFormat(MOVK, 0, 0x5678, 0);
      && Apply(AsWritten, sim, ins).sim.registers[0] == 0x68AC
      && Apply(Intended, sim, ins).sim.registers[0] == 0x5678
  {
    var sim := SetRegister(InitializeSimulator([]), 0, 0x1234);
    ApplyMovk(AsWritten, sim, 0, 0x5678, 0);
    ApplyMovk(Intended, sim, 0, 0x5678, 0);
    MovkValues();
  }

  /** MOVK as written, on R0 = 0x1_0000 with MOVK R0, 16, LSL 16: the old slice (1) is
      read at the right place only because the field equals the shift code, and it is then
      subtracted from bit 0 instead of bit 16, giving 0x10_FFFF instead of 0x10_0000. */
  lemma MovkAsWrittenSubtractsUnscaled()
    ensures var sim := SetRegister(InitializeSimulator([]), 0, 0x1_0000);
      var ins := IMFormat(MOVK, 16, 16, 0);
      && Apply(AsWritten, sim, ins).sim.registers[0] == 0x10_FFFF
      && Apply(Intended, sim, ins).sim.registers[0] == 0x10_0000
  {
    var sim := SetRegister(InitializeSimulator([]), 0, 0x1_0000);
    ApplyMovk(AsWritten, sim, 16, 16, 0);
    ApplyMovk(Intended, sim, 16, 16, 0);
    MovkValues();
  }

  /** The register values of the two MOVK examples, in both readings. */
  lemma MovkValues()
    ensures MovkAsWritten(0x1234, 0, 0x5678) == 0x68AC && Movk(0x1234, 0, 0x5678) == 0x5678
    ensures MovkAsWritten(0x1_0000, 16, 16) == 0x10_FFFF && Movk(0x1_0000, 16, 16) == 0x10_0000
  {
    MovkAsWrittenValues();
    MovkIntendedValues();
  }

  lemma MovkAsWrittenValues()
    ensures MovkAsWritten(0x1234, 0, 0x5678) == 0x68AC
    ensures MovkAsWritten(0x1_0000, 16, 16) == 0x10_FFFF
  {
    assert ShiftWeight(0) == 1 && ShiftWeight(16) == 0x1_0000;
    assert Asr64(0x1234, 0x5678) % 0x1_0000 == 0;
    assert Mul64(0x5678, 1) == 0x5678 && Add64(0x1234, 0x5678) == 0x68AC && Sub64(0x68AC, 0) == 0x68AC;
    assert Asr64(0x1_0000, 16) % 0x1_0000 == 1 by {
      assert Pow2(16) == 0x1_0000 by {
        Pow2Small();
      }
    }
    assert Mul64(16, 0x1_0000) == 0x10_0000;
    assert Add64(0x1_0000, 0x10_0000) == 0x11_0000;
    assert Sub64(0x11_0000, 1) == 0x10_FFFF;
  }

  lemma MovkIntendedValues()
    ensures Movk(0x1234, 0, 0x5678) == 0x5678
    ensures Movk(0x1_0000, 16, 16) == 0x10_0000
  {
    assert ShiftWeight(0) == 1 && ShiftWeight(16) == 0x1_0000;
    assert Unsigned64(0x1234) == 0x1234 && Unsigned64(0x1_0000) == 0x1_0000;
    assert Wrap64(0x5678) == 0x5678 && Wrap64(0x10_0000) == 0x10_0000;
    assert Movk(0x1234, 0, 0x5678) == Wrap64(0x5678) by {
      assert (0x1234 / 0x1_0000) * 0x1_0000 + 0x5678 * 1 + 0x1234 % 1 == 0x5678;
    }
    assert Movk(0x1_0000, 16, 16) == Wrap64(0x10_0000) by {
      assert (0x1_0000 / 0x1_0000_0000) * 0x1_0000_0000 + 16 * 0x1_0000 + 0x1_0000 % 0x1_0000 == 0x10_0000;
    }
  }

  /** STUR as written changes nothing the simulator keeps. */
  lemma SturIsLost(sim: Simulator, address: nat, rn: RegIndex, rt: RegIndex)
    requires address < 512
    ensures Apply(AsWritten, sim, DFormat(STUR, address, rn, rt)).sim == sim
  {
  }

  /** A value stored as written cannot be loaded back: R1 = 5, then STUR R1, [R0, #0] and
      LDUR R2, [R0, #0] leave R2 at 0; as intended R2 becomes 5. */
  lemma StoreThenLoadAsWritten()
    ensures var sim := SetRegister(InitializeSimulator([]), 1, 5);
      var st, ld := DFormat(STUR, 0, 0, 1), DFormat(LDUR, 0, 0, 2);
      && Apply(AsWritten, Apply(AsWritten, sim, st).sim, ld).sim.registers[2] == 0
      && Apply(Intended, Apply(Intended, sim, st).sim, ld).sim.registers[2] == 5
  {
    var sim := SetRegister(InitializeSimulator([]), 1, 5);
    var stored := Apply(Intended, sim, DFormat(STUR, 0, 0, 1)).sim;
    assert stored.data == [Data("", 5, 0)];
  }

  /** As intended, a load from the address a store wrote (same base register and offset)
      reads the low 32 bits of the stored register, and every other address reads as
      before. */
  lemma StoreThenLoad(sim: Simulator, address: nat, rn: RegIndex, rt: RegIndex, rd: RegIndex)
    requires address < 512
    ensures var after := Apply(Intended, sim, DFormat(STUR, address, rn, rt)).sim;
      var at := sim.registers[rn] + 4 * address;
      && Apply(Intended, after, DFormat(LDUR, address, rn, rd)).sim.registers[rd] == Wrap32(sim.registers[rt])
      && forall a :: a != at ==> FindData(after.data, a) == FindData(sim.data, a)
  {
  }

  /** LDUR as written reads the entry at the base register's index plus four times the
      offset, whatever the register holds. */
  lemma LoadAsWrittenUsesIndex(sim: Simulator, address: nat, rn: RegIndex, rd: RegIndex)
    requires address < 512
    ensures Apply(AsWritten, sim, DFormat(LDUR, address, rn, rd)).sim.registers[rd]
      == FindData(sim.data, rn + 4 * address)
  {
    var at := DataAddress(AsWritten, sim, address, rn);
    assert at == rn + 4 * address by {
      Peel(0, address * 4, 0x1_0000);
      Peel(0, rn + address * 4, 0x1_0000);
    }
    ApplyLoad(AsWritten, sim, address, rn, rd);
    assert Apply(AsWritten, sim, DFormat(LDUR, address, rn, rd)).sim.registers[rd] == FindData(sim.data, at);
  }

  /** What LDUR leaves in its register, in either reading. */
  lemma ApplyLoad(mode: Semantics, sim: Simulator, address: nat, rn: RegIndex, rd: RegIndex)
    requires address < 512
    ensures Apply(mode, sim, DFormat(LDUR, address, rn, rd)).sim.registers[rd]
      == FindData(sim.data, DataAddress(mode, sim, address, rn))
  {
    var step := Apply(mode, sim, DFormat(LDUR, address, rn, rd));
    assert step.sim == ApplyD(mode, sim, LDUR, address, rn, rd);
  }

  /** R1 = 200 and a data word 7 at position 200: LDUR R2, [R1, #0] as written reads
      position 1 and gets 0; as intended it gets 7. */
  lemma LoadAsWrittenMissesBase()
    ensures var sim := SetRegister(InitializeSimulator([Data("", 7, 200)]), 1, 200);
      var ld := DFormat(LDUR, 0, 1, 2);
      && Apply(AsWritten, sim, ld).sim.registers[2] == 0
      && Apply(Intended, sim, ld).sim.registers[2] == 7
  {
  }
}
