/**
  The virtual CPU as a state and a step. Memory is one flat byte string here; the
  machine that splits it into ROM and RAM is proved to behave the same.
 */
module Machine {
  import opened Wrappers
  import opened Bytes
  import opened Alu
  import opened Instructions

  const STACK_SIZE := 256
  const WORD_SIZE := 4

  datatype Status =
    | Halted
    | Normal
    | OutOfMemory
    | StackOverflow
    | StackUnderflow
    | DivisionByZero
    | InvalidCondition
    | InvalidOpcode
  {
    predicate IsError() {
      !Halted? && !Normal?
    }
  }

  /** The arithmetic unit's fields as a value. */
  datatype AluState = AluState(left: Word, right: Word, result: Word, op: Operation, flags: Flags)

  const IDLE := AluState(0, 0, 0, NoOp, CLEAR)

  /** Console output so far and the input still to come complete the state. */
  datatype State = State(registers: seq<Word>, flags: Flags, status: Status, alu: AluState, rom: seq<Byte>,
                         ram: seq<Byte>, entry: Word, output: seq<Byte>, input: seq<Byte>)
  {
    /** RAM may go beyond the last word address; only loads and stores reach it there. */
    predicate Valid() {
      |registers| == REGISTER_COUNT && |rom| == ROM_SIZE && ROM_SIZE + |ram| < SIZE_RANGE
    }

    function Memory(): seq<Byte> {
      rom + ram
    }

    function Register(r: nat): Word
      requires Valid() && r < REGISTER_COUNT
    {
      registers[r]
    }

    function WithRegister(r: nat, w: Word): (s: State)
      requires Valid() && r < REGISTER_COUNT
      ensures s.Valid()
    {
      this.(registers := registers[r := w])
    }

    function WithMemory(b: seq<Byte>): (s: State)
      requires Valid() && |b| == |Memory()|
      ensures s.Valid() && s.Memory() == b && |s.ram| == |ram|
    {
      assert b[..ROM_SIZE] + b[ROM_SIZE..] == b;
      this.(rom := b[..ROM_SIZE], ram := b[ROM_SIZE..])
    }

    /** vm_set_state: an error is never overwritten. */
    function WithStatus(s: Status): State {
      if status.IsError() then this else this.(status := s)
    }

    /** vm_validate_range, on a host whose sizes have 64 bits. */
    predicate InRange(address: nat, size: nat) {
      |ram| <= SIZE_RANGE - 1 - ROM_SIZE && size <= ROM_SIZE + |ram| && address <= ROM_SIZE + |ram| - size
    }
  }

  datatype Read = Read(state: State, value: nat)

  /** A little-endian read; out of range it gives zero and sets the error. */
  function ReadScalar(m: State, address: nat, size: nat): Read
    requires m.Valid()
  {
    if !m.InRange(address, size) then Read(m.WithStatus(OutOfMemory), 0)
    else Read(m, FromLE(m.Memory()[address..address + size]))
  }

  function WriteScalar(m: State, address: nat, value: nat, size: nat): (s: State)
    requires m.Valid()
    ensures s.Valid()
  {
    if !m.InRange(address, size) then m.WithStatus(OutOfMemory)
    else m.WithMemory(Splice(m.Memory(), address, LE(value, size)))
  }

  // ----- stack -----

  /** Bytes in use, when the stack pointer is in a position to have any. */
  predicate CanPop(sp: Word, bp: Word) {
    bp <= sp && WORD_SIZE <= sp - bp <= STACK_SIZE && (sp - bp) % WORD_SIZE == 0
  }

  predicate CanPush(sp: Word, bp: Word) {
    bp <= sp && sp - bp <= STACK_SIZE - WORD_SIZE && (sp - bp) % WORD_SIZE == 0
  }

  datatype Popped = Popped(state: State, ok: bool, value: Word)

  function Pop(m: State): (p: Popped)
    requires m.Valid()
    ensures p.state.Valid()
  {
    var sp, bp := m.Register(R_SP), m.Register(R_BP);
    if !CanPop(sp, bp) then Popped(m.WithStatus(StackUnderflow), false, 0)
    else
      var read := ReadScalar(m, sp - WORD_SIZE, WORD_SIZE);
      if read.state.status.IsError() then Popped(read.state, false, 0)
      else Popped(read.state.WithRegister(R_SP, sp - WORD_SIZE), true, Wrap(read.value))
  }

  datatype Pushed = Pushed(state: State, ok: bool)

  function Push(m: State, value: Word): (p: Pushed)
    requires m.Valid()
    ensures p.state.Valid()
  {
    var sp, bp := m.Register(R_SP), m.Register(R_BP);
    if !CanPush(sp, bp) then Pushed(m.WithStatus(StackOverflow), false)
    else if !m.InRange(sp, WORD_SIZE) then Pushed(m.WithStatus(OutOfMemory), false)
    else
      var written := WriteScalar(m, sp, value, WORD_SIZE);
      if written.status.IsError() then Pushed(written, false)
      else Pushed(written.WithRegister(R_SP, Wrap(sp + WORD_SIZE)), true)
  }

  // ----- one instruction -----

  /** vm_do_operation: sets the flags and leaves the result in the arithmetic unit. */
  function Operate(m: State, op: Operation, left: Word, right: Word): (s: State)
    requires m.Valid() && !op.NoOp?
    ensures s.Valid()
  {
    if Divides(op) && right == 0 then m.WithStatus(DivisionByZero)
    else
      var flags := FlagsOf(op, left, right);
      m.(alu := AluState(left, right, ResultOf(op, left, right), op, flags), flags := flags)
  }

  function OperandOf(m: State, i: Instruction, operand: Operand): Word
    requires m.Valid() && i.register2 < REGISTER_COUNT
  {
    match operand
    case Register2 => m.Register(i.register2)
    case Immediate => i.immediate
    case Nothing => 0
  }

  /** Console services; unknown codes do nothing. Reading past the end of input gives EOF as a word. */
  function Serve(m: State, code: Word): (s: State)
    requires m.Valid()
    ensures s.Valid()
  {
    match code
    case 0x01 => m.(output := m.output + [(m.Register(R_A0) % 0x100 + 0x60) % 0x100])
    case 0x02 => m.(output := m.output + [m.Register(R_A0) % 0x100])
    case 0x10 =>
      if m.input == [] then m.WithRegister(R_V0, WORD_MAX)
      else m.WithRegister(R_V0, m.input[0]).(input := m.input[1..])
    case 0xFF => m.WithStatus(Halted)
    case _ => m
  }

  /** A load of fewer than four bytes keeps the upper bytes of the register. */
  function Merged(word: Word, value: nat, size: nat): Word
    requires size == 1 || size == 2 || size == 4
  {
    if size == 1 then word - word % 0x100 + value % 0x100
    else if size == 2 then word - word % 0x1_0000 + value % 0x1_0000
    else Wrap(value)
  }

  function Act(m: State, i: Instruction, action: Action): (s: State)
    requires m.Valid() && i.register1 < REGISTER_COUNT && i.register2 < REGISTER_COUNT
    requires action == ActionOf(i.opcode)
    ensures s.Valid()
  {
    var first := m.Register(i.register1);
    match action
    case NoAction => m
    case PopWord => Pop(m).state
    case PopRegister => var p := Pop(m); if p.ok then p.state.WithRegister(i.register1, p.value) else p.state
    case PushRegister => Push(m, first).state
    case PushImmediate => Push(m, i.immediate).state
    case Duplicate =>
      var p := Pop(m);
      if p.ok then Push(Push(p.state, p.value).state, p.value).state else p.state
    case MoveRegister => m.WithRegister(i.register1, m.Register(i.register2))
    case MoveImmediate => m.WithRegister(i.register1, i.immediate)
    case Compute(op, right, writes) =>
      var computed := Operate(m, op, first, OperandOf(m, i, right));
      if writes && !computed.status.IsError() then computed.WithRegister(i.register1, computed.alu.result) else computed
    case LoadFrom(size) =>
      var address := m.Register(i.register2) + i.immediate;
      if !m.InRange(address, size) then m.WithStatus(OutOfMemory)
      else m.WithRegister(i.register1, Merged(first, ReadScalar(m, address, size).value, size))
    case StoreTo(size) =>
      var address := m.Register(i.register2) + i.immediate;
      if !m.InRange(address, size) then m.WithStatus(OutOfMemory)
      else WriteScalar(m, address, first, size)
    case Interrupt => Serve(m, i.immediate)
    case SystemCall => m
    case Jump => m.WithRegister(R_PC, i.immediate)
    case JumpAndLink => m.WithRegister(R_LP, m.Register(R_PC)).WithRegister(R_PC, i.immediate)
    case Return => m.WithRegister(R_PC, m.Register(R_LP))
    case Illegal => m.WithStatus(InvalidOpcode)
  }

  /** After every instruction $zero is zero and a used arithmetic unit is reset. */
  function Settle(m: State): (s: State)
    requires m.Valid()
    ensures s.Valid()
  {
    var zeroed := m.WithRegister(R_ZERO, 0);
    if zeroed.alu.op.NoOp? then zeroed else zeroed.(alu := IDLE)
  }

  /** vm_run_instruction. */
  function Execute(m: State, i: Instruction): (s: State)
    requires m.Valid()
    ensures s.Valid()
  {
    var start := m.WithRegister(R_ZERO, 0);
    var holds := Holds(start.flags, i.condition);
    if holds.None? then start.WithStatus(InvalidCondition)
    else if !holds.value then start
    else if i.register1 >= REGISTER_COUNT || i.register2 >= REGISTER_COUNT then start.WithStatus(InvalidOpcode)
    else Settle(Act(start, i, ActionOf(i.opcode)))
  }

  // ----- running -----

  datatype Fetched = Fetched(state: State, instruction: Option<Instruction>)

  lemma WrapAdd(a: Word, i: nat)
    requires i < WORD_RANGE
    ensures Wrap(a + i) == if a + i < WORD_RANGE then a + i else a + i - WORD_RANGE
  {
  }

  /** The eight bytes at $pc, which wraps behind the last word address. */
  function FetchedBytes(m: State, pc: Word): (b: seq<Byte>)
    requires m.Valid() && m.InRange(pc, INSTRUCTION_SIZE)
    ensures |b| == INSTRUCTION_SIZE
  {
    seq(INSTRUCTION_SIZE, i requires 0 <= i < INSTRUCTION_SIZE => WrapAdd(pc, i); m.Memory()[Wrap(pc + i)])
  }

  /** Away from the last word address these are eight bytes in a row. */
  lemma FetchedInOrder(m: State, pc: Word)
    requires m.Valid() && m.InRange(pc, INSTRUCTION_SIZE) && pc + INSTRUCTION_SIZE <= WORD_RANGE
    ensures FetchedBytes(m, pc) == m.Memory()[pc..pc + INSTRUCTION_SIZE]
  {
    forall i | 0 <= i < INSTRUCTION_SIZE ensures FetchedBytes(m, pc)[i] == m.Memory()[pc..pc + INSTRUCTION_SIZE][i] {
      WrapAdd(pc, i);
    }
  }

  /** vm_fetch_instruction: eight bytes at $pc, which then points behind them. */
  function Fetch(m: State): (f: Fetched)
    requires m.Valid()
    ensures f.state.Valid()
  {
    var pc := m.Register(R_PC);
    if !m.InRange(pc, INSTRUCTION_SIZE) then Fetched(m.WithStatus(OutOfMemory), None)
    else Fetched(m.WithRegister(R_PC, Wrap(pc + INSTRUCTION_SIZE)), Some(Decoded(FetchedBytes(m, pc))))
  }

  predicate Stopped(m: State) {
    m.status.IsError() || m.status.Halted?
  }

  /** One turn of the loop in vm_run. */
  function Step(m: State): (s: State)
    requires m.Valid()
    ensures s.Valid()
  {
    if Stopped(m) then m
    else
      var f := Fetch(m);
      if f.instruction.None? || f.state.status.IsError() then f.state else Execute(f.state, f.instruction.value)
  }

  function Steps(m: State, n: nat): (s: State)
    requires m.Valid()
    ensures s.Valid()
  {
    if n == 0 then m else Step(Steps(m, n - 1))
  }

  /** vm_run enters at the entry point with an empty stack at the start of RAM. */
  function Started(m: State): (s: State)
    requires m.Valid()
    ensures s.Valid()
  {
    m.WithRegister(R_PC, m.entry).WithRegister(R_BP, ROM_SIZE).WithRegister(R_SP, ROM_SIZE)
  }
}
