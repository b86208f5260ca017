/** The eight-byte instruction format and what each opcode asks the machine to do. */
module Instructions {
  import opened Wrappers
  import opened Bytes
  import opened Alu

  const INSTRUCTION_SIZE := 8
  const OPCODE_TOTAL := 56
  const CONDITION_TOTAL := 17

  /** Field values are whatever the four bytes held; only execution gives them meaning. */
  datatype Instruction = Instruction(opcode: Byte, condition: Byte, register1: Byte, register2: Byte, immediate: Word)

  function Encoded(i: Instruction): (b: seq<Byte>)
    ensures |b| == INSTRUCTION_SIZE
  {
    [i.opcode, i.condition, i.register1, i.register2] + LE(i.immediate, 4)
  }

  function Decoded(b: seq<Byte>): Instruction
    requires |b| == INSTRUCTION_SIZE
  {
    FromLEWord(b[4..8]);
    Instruction(b[0], b[1], b[2], b[3], FromLE(b[4..8]))
  }

  predicate Encodable(i: Instruction) {
    i.opcode < OPCODE_TOTAL && i.condition < CONDITION_TOTAL
  }

  lemma DecodedEncoded(i: Instruction)
    ensures Decoded(Encoded(i)) == i
  {
    hide LE;
    assert Encoded(i)[4..8] == LE(i.immediate, 4);
    ReadBackWord(i.immediate);
  }

  lemma EncodedDecoded(b: seq<Byte>)
    requires |b| == INSTRUCTION_SIZE
    ensures Encoded(Decoded(b)) == b
  {
    hide LE;
    WriteBack(b[4..8]);
  }

  /** instruction_encode: refuses a short buffer or a field that has no encoding, and then writes nothing. */
  method Encode(output: array<Byte>, i: Instruction) returns (ok: bool)
    modifies output
    ensures ok <==> output.Length >= INSTRUCTION_SIZE && Encodable(i)
    ensures ok ==> output[..8] == Encoded(i) && output[8..] == old(output[8..])
    ensures !ok ==> output[..] == old(output[..])
  {
    if output.Length < INSTRUCTION_SIZE || i.opcode >= OPCODE_TOTAL || i.condition >= CONDITION_TOTAL {
      return false;
    }
    output[0], output[1], output[2], output[3] := i.opcode, i.condition, i.register1, i.register2;
    Put(output, 4, i.immediate, 4);
    ok := true;
  }

  /** instruction_decode: any eight bytes decode. */
  method Decode(input: seq<Byte>) returns (r: Option<Instruction>)
    ensures r == if |input| < INSTRUCTION_SIZE then None else Some(Decoded(input[..8]))
  {
    if |input| < INSTRUCTION_SIZE {
      return None;
    }
    FromLEWord(input[4..8]);
    var immediate := Get(input, 4, 4);
    assert input[..8][4..8] == input[4..8];
    r := Some(Instruction(input[0], input[1], input[2], input[3], immediate));
  }

  // ----- registers and conditions -----

  const R_ZERO := 0
  const R_V0 := 2
  const R_A0 := 6
  const R_LP := 28
  const R_SP := 29
  const R_BP := 30
  const R_PC := 31
  const REGISTER_COUNT := 32

  /** Whether a condition holds; None when there is no such condition. */
  function Holds(f: Flags, condition: Byte): Option<bool> {
    match condition
    case 0 => Some(true)
    case 1 => Some(f.z)
    case 2 => Some(!f.z)
    case 3 => Some(f.n)
    case 4 => Some(!f.n)
    case 5 => Some(f.v)
    case 6 => Some(!f.v)
    case 7 => Some(f.c)
    case 8 => Some(!f.c)
    case 9 => Some(f.s)
    case 10 => Some(!f.s)
    case 11 => Some(f.c && !f.z)
    case 12 => Some(!f.c || f.z)
    case 13 => Some(f.n != f.v)
    case 14 => Some(f.z || f.n != f.v)
    case 15 => Some(!(f.z || f.n != f.v))
    case 16 => Some(f.n == f.v)
    case _ => None
  }

  const EQ: Byte := 1
  const NE: Byte := 2
  const HS: Byte := 7
  const LO: Byte := 8
  const UH: Byte := 11
  const UL: Byte := 12
  const LT: Byte := 13
  const LTE: Byte := 14
  const GT: Byte := 15
  const GTE: Byte := 16

  // ----- opcodes -----

  datatype Operand = Register2 | Immediate | Nothing

  datatype Action =
    | NoAction
    | PopWord | PopRegister | PushRegister | PushImmediate | Duplicate
    | MoveRegister | MoveImmediate
    | Compute(op: Operation, right: Operand, writes: bool)
    | LoadFrom(size: nat)
    | StoreTo(size: nat)
    | Interrupt | SystemCall
    | Jump | JumpAndLink | Return
    | Illegal

  /** The dispatch table of vm_run_instruction; opcodes are numbered as in the instruction set. */
  function ActionOf(opcode: Byte): Action {
    match opcode
    case 0 => NoAction
    case 1 => PopWord
    case 2 => PopRegister
    case 3 => PushRegister
    case 4 => PushImmediate
    case 5 => Duplicate
    case 6 => MoveRegister
    case 7 => MoveImmediate
    case 8 => Compute(Add, Register2, true)
    case 9 => Compute(Sub, Register2, true)
    case 10 => Compute(Mul, Register2, true)
    case 11 => Compute(Div, Register2, true)
    case 12 => Compute(Mod, Register2, true)
    case 13 => Compute(Add, Immediate, true)
    case 14 => Compute(Sub, Immediate, true)
    case 15 => Compute(Mul, Immediate, true)
    case 16 => Compute(Div, Immediate, true)
    case 17 => Compute(Mod, Immediate, true)
    case 18 => Interrupt
    case 19 => SystemCall
    case 20 => Jump
    case 21 => Compute(Not, Nothing, true)
    case 22 => Compute(AndOp, Register2, true)
    case 23 => Compute(OrOp, Register2, true)
    case 24 => Compute(XorOp, Register2, true)
    case 25 => Compute(Nand, Register2, true)
    case 26 => Compute(Nor, Register2, true)
    case 27 => Compute(AndOp, Immediate, true)
    case 28 => Compute(OrOp, Immediate, true)
    case 29 => Compute(XorOp, Immediate, true)
    case 30 => Compute(Nand, Immediate, true)
    case 31 => Compute(Nor, Immediate, true)
    case 32 => Compute(Inc, Nothing, true)
    case 33 => Compute(Dec, Nothing, true)
    case 34 => LoadFrom(1)
    case 35 => StoreTo(1)
    case 36 => LoadFrom(2)
    case 37 => StoreTo(2)
    case 38 => LoadFrom(4)
    case 39 => StoreTo(4)
    case 40 => JumpAndLink
    case 41 => Return
    case 42 => Compute(Sub, Register2, false)
    case 43 => Compute(Sub, Immediate, false)
    case 44 => Compute(SSub, Register2, false)
    case 45 => Compute(SSub, Immediate, false)
    case 46 => Compute(SAdd, Register2, true)
    case 47 => Compute(SSub, Register2, true)
    case 48 => Compute(SMul, Register2, true)
    case 49 => Compute(SDiv, Register2, true)
    case 50 => Compute(SMod, Register2, true)
    case 51 => Compute(SAdd, Immediate, true)
    case 52 => Compute(SSub, Immediate, true)
    case 53 => Compute(SMul, Immediate, true)
    case 54 => Compute(SDiv, Immediate, true)
    case 55 => Compute(SMod, Immediate, true)
    case _ => Illegal
  }
}
