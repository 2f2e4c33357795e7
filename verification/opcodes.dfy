/** The five opcode tables and the prioritised lookup that classifies an instruction word
    by its leading bits. */
module Opcodes {
  import opened Bits

  datatype ROp = AND | ADD | ORR | SUB | LSL | LSR | ASR | EOR
  datatype DOp = STUR | LDUR
  datatype IOp = ADDI | SUBI
  datatype IMOp = MOVZ | MOVK
  datatype CBOp = CBZ | CBNZ

  /** R-format table, keyed by the leading 11 bits (binary 10001010000 is AND, and so on). */
  const ROpcodes: map<int, ROp> :=
    map[0x450 := AND, 0x458 := ADD, 0x550 := ORR, 0x658 := SUB,
        0x69B := LSL, 0x69A := LSR, 0x69C := ASR, 0x750 := EOR]

  /** D-format table, keyed by the leading 11 bits. */
  const DOpcodes: map<int, DOp> := map[0x7C0 := STUR, 0x7C2 := LDUR]

  /** I-format table, keyed by the leading 10 bits. */
  const IOpcodes: map<int, IOp> := map[0x244 := ADDI, 0x344 := SUBI]

  /** IM-format table, keyed by the leading 9 bits. */
  const IMOpcodes: map<int, IMOp> := map[0x1A5 := MOVZ, 0x1E5 := MOVK]

  /** CB-format table, keyed by the leading 8 bits. */
  const CBOpcodes: map<int, CBOp> := map[0xB4 := CBZ, 0xB5 := CBNZ]

  /** The leading 6 bits of B (binary 000101) and the leading 11 bits of BREAK. */
  const BPrefix: int := 0x05
  const BreakOpcode: int := 0x7F6

  /** The outcome of classification: the source's (mnemonic, type) pair, with the
      empty pair of an unrecognised word as `NoClass`. */
  datatype OpClass =
    | RClass(rop: ROp)
    | DClass(dop: DOp)
    | IClass(iop: IOp)
    | IMClass(imop: IMOp)
    | CBClass(cbop: CBOp)
    | BClass
    | NopClass
    | BreakClass
    | NoClass

  /** The opcode each mnemonic is filed under, read off the tables. */
  function ROpcode(op: ROp): int
  {
    match op
    case AND => 0x450
    case ADD => 0x458
    case ORR => 0x550
    case SUB => 0x658
    case LSL => 0x69B
    case LSR => 0x69A
    case ASR => 0x69C
    case EOR => 0x750
  }

  function DOpcode(op: DOp): int
  {
    match op
    case STUR => 0x7C0
    case LDUR => 0x7C2
  }

  function IOpcode(op: IOp): int
  {
    match op
    case ADDI => 0x244
    case SUBI => 0x344
  }

  function IMOpcode(op: IMOp): int
  {
    match op
    case MOVZ => 0x1A5
    case MOVK => 0x1E5
  }

  function CBOpcode(op: CBOp): int
  {
    match op
    case CBZ => 0xB4
    case CBNZ => 0xB5
  }

  /** The opcode functions and the tables are inverse to each other. */
  lemma TablesInvertOpcodes()
    ensures forall op :: ROpcode(op) in ROpcodes && ROpcodes[ROpcode(op)] == op
    ensures forall k :: k in ROpcodes ==> ROpcode(ROpcodes[k]) == k
    ensures forall op :: DOpcode(op) in DOpcodes && DOpcodes[DOpcode(op)] == op
    ensures forall k :: k in DOpcodes ==> DOpcode(DOpcodes[k]) == k
    ensures forall op :: IOpcode(op) in IOpcodes && IOpcodes[IOpcode(op)] == op
    ensures forall k :: k in IOpcodes ==> IOpcode(IOpcodes[k]) == k
    ensures forall op :: IMOpcode(op) in IMOpcodes && IMOpcodes[IMOpcode(op)] == op
    ensures forall k :: k in IMOpcodes ==> IMOpcode(IMOpcodes[k]) == k
    ensures forall op :: CBOpcode(op) in CBOpcodes && CBOpcodes[CBOpcode(op)] == op
    ensures forall k :: k in CBOpcodes ==> CBOpcode(CBOpcodes[k]) == k
  {
  }

  /** The leading-11-bit values a class claims: its fixed opcode bits, whatever bits of
      the word follow them. */
  predicate Encodes(c: OpClass, top: int)
  {
    match c
    case RClass(op) => top == ROpcode(op)
    case DClass(op) => top == DOpcode(op)
    case IClass(op) => top / 2 == IOpcode(op)
    case IMClass(op) => top / 4 == IMOpcode(op)
    case CBClass(op) => top / 8 == CBOpcode(op)
    case BClass => top / 32 == BPrefix
    case NopClass => top == 0
    case BreakClass => top == BreakOpcode
    case NoClass => false
  }

  /** The leading 11 bits of a word: all that classification looks at. */
  function Top11(w: Word): (top: int)
    ensures 0 <= top < 2048
  {
    w / 0x200000
  }

  /** Prioritised lookup on shrinking prefixes: R, D, I, IM, CB, then the fixed patterns
      of B, NOP and BREAK; `NoClass` when none matches. Because the patterns never
      overlap, the priority order does not matter: the result is the one class whose
      pattern the leading bits carry, and `NoClass` exactly when there is none. */
  function ValueToOpAndType(w: Word): (c: OpClass)
    ensures c != NoClass ==> Encodes(c, Top11(w))
    ensures forall c' :: Encodes(c', Top11(w)) ==> c' == c
  {
    var top := Top11(w);
    ClassesDisjoint(top);
    if top in ROpcodes then RClass(ROpcodes[top])
    else if top in DOpcodes then DClass(DOpcodes[top])
    else if top / 2 in IOpcodes then IClass(IOpcodes[top / 2])
    else if top / 4 in IMOpcodes then IMClass(IMOpcodes[top / 4])
    else if top / 8 in CBOpcodes then CBClass(CBOpcodes[top / 8])
    else if top / 32 == BPrefix then BClass
    else if top == 0 then NopClass
    else if top == BreakOpcode then BreakClass
    else NoClass
  }

  /** No leading-11-bit value is claimed by two classes, and a value that a class claims
      is found by the lookup of that class's table. */
  lemma ClassesDisjoint(top: int)
    requires 0 <= top < 2048
    ensures forall c, c' :: Encodes(c, top) && Encodes(c', top) ==> c == c'
    ensures forall op :: Encodes(RClass(op), top) <==> top in ROpcodes && ROpcodes[top] == op
    ensures forall op :: Encodes(DClass(op), top) <==> top in DOpcodes && DOpcodes[top] == op
    ensures forall op :: Encodes(IClass(op), top) <==> top / 2 in IOpcodes && IOpcodes[top / 2] == op
    ensures forall op :: Encodes(IMClass(op), top) <==> top / 4 in IMOpcodes && IMOpcodes[top / 4] == op
    ensures forall op :: Encodes(CBClass(op), top) <==> top / 8 in CBOpcodes && CBOpcodes[top / 8] == op
  {
    TablesInvertOpcodes();
  }
}
