/**
  The emulator object: registers, ROM, RAM and the arithmetic unit are updated in
  place, and every method is proved to do to the object what Machine says of the state.
 */
module VirtualMachine {
  import opened Wrappers
  import opened Bits
  import opened Bytes
  import opened ImageFormat
  import opened ImageDecoder
  import opened ImageRoundTrip
  import opened LinkProofs
  import opened Loading
  import opened Alu
  import opened Instructions
  import opened Machine
  import opened MachineProofs

  class Emulator {
    const registers: array<Word>
    const rom: array<Byte>
    const memory: array<Byte>
    const alu: Unit
    var flags: Flags
    var status: Status
    var entryPoint: Word
    var output: seq<Byte>
    var input: seq<Byte>

    predicate Valid()
      reads this
    {
      registers.Length == REGISTER_COUNT && rom.Length == ROM_SIZE && ROM_SIZE + memory.Length < SIZE_RANGE
        && rom != memory
    }

    ghost function Parts(): set<object> {
      {this, registers, rom, memory, alu}
    }

    ghost function Abs(): (m: State)
      requires Valid()
      reads this, registers, rom, memory, alu
      ensures m.Valid()
    {
      State(registers[..], flags, status, AluState(alu.left, alu.right, alu.result, alu.op, alu.flags), rom[..],
            memory[..], entryPoint, output, input)
    }

    /** vm_initialize: everything is zero and the machine is ready. */
    constructor (ramSize: nat, console: seq<Byte>)
      requires ROM_SIZE + ramSize < SIZE_RANGE
      ensures Valid() && fresh(Parts())
      ensures Abs() == State(seq(REGISTER_COUNT, _ => 0), CLEAR, Normal, IDLE, Zeros(ROM_SIZE), Zeros(ramSize), 0,
                             [], console)
    {
      registers := new Word[REGISTER_COUNT](_ => 0);
      rom := new Byte[ROM_SIZE](_ => 0);
      memory := new Byte[ramSize](_ => 0);
      alu := new Unit();
      flags, status, entryPoint, output, input := CLEAR, Normal, 0, [], console;
    }

    method SetStatus(s: Status)
      requires Valid()
      modifies this`status
      ensures Valid() && Abs() == old(Abs()).WithStatus(s)
    {
      if !status.IsError() {
        status := s;
      }
    }

    method ValidateRange(address: nat, size: nat) returns (ok: bool)
      requires Valid()
      modifies this`status
      ensures Valid() && ok == old(Abs()).InRange(address, size)
      ensures Abs() == if ok then old(Abs()) else old(Abs()).WithStatus(OutOfMemory)
    {
      var end := ROM_SIZE + memory.Length;
      if size > end || address > end - size {
        SetStatus(OutOfMemory);
        return false;
      }
      ok := true;
    }

    // ----- memory -----

    method ReadByte(address: nat) returns (b: Byte)
      requires Valid()
      modifies this`status
      ensures Valid() && Read(Abs(), b) == ReadScalar(old(Abs()), address, 1)
    {
      var ok := ValidateRange(address, 1);
      if !ok {
        return 0;
      }
      assert Abs().Memory()[address..address + 1] == [Abs().Memory()[address]];
      assert FromLE([Abs().Memory()[address]]) == Abs().Memory()[address];
      if address >= ROM_SIZE {
        b := memory[address - ROM_SIZE];
      } else {
        b := rom[address];
      }
    }

    method WriteByte(address: nat, value: Byte)
      requires Valid()
      modifies this`status, rom, memory
      ensures Valid()
      ensures Abs() == if old(Abs()).InRange(address, 1)
              then old(Abs()).WithMemory(Splice(old(Abs()).Memory(), address, [value]))
                       else old(Abs()).WithStatus(OutOfMemory)
    {
      var ok := ValidateRange(address, 1);
      if !ok {
        return;
      }
      if address >= ROM_SIZE {
        memory[address - ROM_SIZE] := value;
      } else {
        rom[address] := value;
      }
      assert Abs().Memory() == Splice(old(Abs()).Memory(), address, [value]);
    }

    /** vm_read_scalar: shift and or, one validated byte at a time. */
    method ReadLittleEndian(address: nat, size: nat) returns (value: nat)
      requires Valid()
      modifies this`status
      ensures Valid() && Read(Abs(), value) == ReadScalar(old(Abs()), address, size)
    {
      hide Or, Pow2, FromLE;
      var ok := ValidateRange(address, size);
      if !ok {
        return 0;
      }
      value := 0;
      ghost var m := Abs();
      NothingRead(m.Memory(), address);
      for index := 0 to size
        invariant Valid() && Abs() == m
        invariant value == FromLE(m.Memory()[address..address + index])
      {
        var b := ReadByte(address + index);
        ghost var low := m.Memory()[address..address + index];
        assert m.Memory()[address..address + index + 1] == low + [m.Memory()[address + index]];
        SingleByte(m.Memory(), address + index);
        OrAppends(low, b);
        value := Or(value, b * Pow2(index * 8));
      }
    }

    /** The low bytes of a number, least significant first, into a range that has been validated. */
    method WriteBytes(address: nat, value: nat, size: nat)
      requires Valid() && Abs().InRange(address, size)
      modifies this`status, rom, memory
      ensures Valid() && Abs() == old(Abs()).WithMemory(Splice(old(Abs()).Memory(), address, LE(value, size)))
    {
      hide Splice, LE, Pow2;
      ghost var m, bytes := Abs(), LE(value, size);
      SpliceNothing(m.Memory(), address);
      SplitMemory(m);
      assert bytes[..0] == [] && bytes[..size] == bytes;
      for index := 0 to size
        invariant Valid() && Abs() == m.WithMemory(Splice(m.Memory(), address, bytes[..index]))
      {
        LEAt(value, size, index);
        OneMoreWritten(m, address, bytes, index);
        WriteByte(address + index, value / Pow2(index * 8) % 256);
      }
    }

    /** vm_write_scalar. */
    method WriteLittleEndian(address: nat, value: nat, size: nat)
      requires Valid()
      modifies this`status, rom, memory
      ensures Valid() && Abs() == WriteScalar(old(Abs()), address, value, size)
    {
      hide Splice, LE;
      var ok := ValidateRange(address, size);
      if ok {
        WriteBytes(address, value, size);
      }
    }

    // ----- stack -----

    method PopWord() returns (ok: bool, value: Word)
      requires Valid()
      modifies this`status, registers
      ensures Valid() && Popped(Abs(), ok, value) == Pop(old(Abs()))
    {
      hide FromLE, ReadScalar;
      ok, value := false, 0;
      var sp, bp := registers[R_SP], registers[R_BP];
      if sp < bp || sp - bp < WORD_SIZE || sp - bp > STACK_SIZE || (sp - bp) % WORD_SIZE != 0 {
        SetStatus(StackUnderflow);
        return;
      }
      var address := sp - WORD_SIZE;
      var word := ReadLittleEndian(address, WORD_SIZE);
      if status.IsError() {
        return;
      }
      registers[R_SP] := address;
      ok, value := true, Wrap(word);
    }

    method PushWord(value: Word) returns (ok: bool)
      requires Valid()
      modifies this`status, registers, rom, memory
      ensures Valid() && Pushed(Abs(), ok) == Push(old(Abs()), value)
    {
      hide LE, Splice;
      ok := false;
      var sp, bp := registers[R_SP], registers[R_BP];
      if sp < bp || sp - bp > STACK_SIZE - WORD_SIZE || (sp - bp) % WORD_SIZE != 0 {
        SetStatus(StackOverflow);
        return;
      }
      var inRange := ValidateRange(sp, WORD_SIZE);
      if !inRange {
        return;
      }
      WriteLittleEndian(sp, value, WORD_SIZE);
      if status.IsError() {
        return;
      }
      registers[R_SP] := Wrap(sp + WORD_SIZE);
      ok := true;
    }

    // ----- instructions -----

    /** vm_do_operation. */
    method DoOperation(op: Operation, left: Word, right: Word)
      requires Valid() && !op.NoOp?
      modifies this`status, this`flags, alu
      ensures Valid() && Abs() == Operate(old(Abs()), op, left, right)
    {
      hide ResultOf, FlagsOf;
      if Divides(op) && right == 0 {
        SetStatus(DivisionByZero);
        return;
      }
      alu.op, alu.left, alu.right := op, left, right;
      alu.Compute();
      flags := alu.flags;
    }

    /** vm_check_condition. */
    method CheckCondition(condition: Byte) returns (holds: bool)
      requires Valid()
      modifies this`status
      ensures Valid() && holds == (Holds(flags, condition) == Some(true))
      ensures Abs() == if Holds(flags, condition).None? then old(Abs()).WithStatus(InvalidCondition) else old(Abs())
    {
      match condition {
        case 0 => return true;
        case 1 => return flags.z;
        case 2 => return !flags.z;
        case 3 => return flags.n;
        case 4 => return !flags.n;
        case 5 => return flags.v;
        case 6 => return !flags.v;
        case 7 => return flags.c;
        case 8 => return !flags.c;
        case 9 => return flags.s;
        case 10 => return !flags.s;
        case 11 => return flags.c && !flags.z;
        case 12 => return !flags.c || flags.z;
        case 13 => return flags.n != flags.v;
        case 14 => return flags.z || flags.n != flags.v;
        case 15 => return !(flags.z || flags.n != flags.v);
        case 16 => return flags.n == flags.v;
        case _ => {
          SetStatus(InvalidCondition);
          return false;
        }
      }
    }

    /** vm_fetch_byte: reads at $pc, which moves on and may wrap. */
    method FetchByte() returns (b: Byte)
      requires Valid()
      modifies this`status, registers
      ensures Valid()
      ensures old(Abs()).InRange(old(registers[R_PC]), 1) ==> b == old(Abs()).Memory()[old(registers[R_PC])]
      ensures old(Abs()).InRange(old(registers[R_PC]), 1) ==>
                Abs() == old(Abs()).WithRegister(R_PC, Wrap(1 + old(registers[R_PC]) as int))
    {
      var address := registers[R_PC];
      registers[R_PC] := if address == WORD_MAX then 0 else address + 1;
      b := ReadByte(address);
      if Abs().InRange(address, 1) {
        SingleByte(Abs().Memory(), address);
      }
    }

    /** Eight single-byte fetches from a range that has been validated. */
    method FetchBytes() returns (bytes: seq<Byte>)
      requires Valid() && Abs().InRange(registers[R_PC], INSTRUCTION_SIZE)
      modifies this`status, registers
      ensures Valid() && var m, pc: nat := old(Abs()), old(registers[R_PC]);
                         bytes == FetchedBytes(m, pc) && Abs() == m.WithRegister(R_PC, Wrap(pc + INSTRUCTION_SIZE))
    {
      hide FetchedBytes, Wrap;
      ghost var m := Abs();
      ghost var address: nat := registers[R_PC];
      PcUnmoved(m);
      WrapWord(address);
      bytes := [];
      for index := 0 to INSTRUCTION_SIZE
        invariant Valid() && Abs() == m.WithRegister(R_PC, Wrap(address + index))
        invariant bytes == FetchedBytes(m, address)[..index]
      {
        PcMoves(m, address, index);
        var b := FetchByte();
        bytes := bytes + [b];
      }
    }

    /** vm_fetch_instruction: eight single-byte fetches and a decode. */
    method FetchInstruction() returns (r: Option<Instruction>)
      requires Valid()
      modifies this`status, registers
      ensures Valid() && Fetched(Abs(), r) == Fetch(old(Abs()))
    {
      hide FromLE, Decoded;
      var ok := ValidateRange(registers[R_PC], INSTRUCTION_SIZE);
      if !ok {
        return None;
      }
      var bytes := FetchBytes();
      r := Instructions.Decode(bytes);
      assert bytes[..8] == bytes;
    }

    /** The 0x01, 0x02 and 0x10 services write and read the console; 0xFF halts. */
    method Interrupt(code: Word)
      requires Valid()
      modifies this, registers
      ensures Valid() && Abs() == Serve(old(Abs()), code)
    {
      match code {
        case 0x01 => output := output + [(registers[R_A0] % 0x100 + 0x60) % 0x100];
        case 0x02 => output := output + [registers[R_A0] % 0x100];
        case 0x10 =>
          if input == [] {
            registers[R_V0] := WORD_MAX;
          } else {
            registers[R_V0] := input[0];
            input := input[1..];
          }
        case 0xFF => SetStatus(Halted);
        case _ =>
      }
    }

    method Load(r: nat, base: Word, offset: Word, size: nat)
      requires Valid() && r < REGISTER_COUNT && (size == 1 || size == 2 || size == 4)
      modifies this`status, registers
      ensures Valid()
      ensures Abs() == if old(Abs()).InRange(base + offset, size)
                       then old(Abs()).WithRegister(r,
                                                    Merged(old(registers[r]),
                                                           ReadScalar(old(Abs()), base + offset, size).value, size))
                       else old(Abs()).WithStatus(OutOfMemory)
    {
      hide FromLE, And, Or, ReadScalar, Merged;
      var ok := ValidateRange(base + offset, size);
      if !ok {
        SetStatus(OutOfMemory);
        return;
      }
      ReadKeeps(Abs(), base + offset, size);
      var value := ReadLittleEndian(base + offset, size);
      MergedByMask(registers[r], value, size);
      if size == 1 {
        registers[r] := Or(And(registers[r], 0xFFFF_FF00), value % 0x100);
      } else if size == 2 {
        registers[r] := Or(And(registers[r], 0xFFFF_0000), value % 0x1_0000);
      } else {
        registers[r] := value % WORD_RANGE;
      }
    }

    method Store(value: Word, base: Word, offset: Word, size: nat)
      requires Valid()
      modifies this`status, rom, memory
      ensures Valid()
      ensures Abs() == if old(Abs()).InRange(base + offset, size)
              then WriteScalar(old(Abs()), base + offset, value, size)
                       else old(Abs()).WithStatus(OutOfMemory)
    {
      hide LE, Splice;
      var ok := ValidateRange(base + offset, size);
      if !ok {
        SetStatus(OutOfMemory);
        return;
      }
      WriteLittleEndian(base + offset, value, size);
    }

    method DuplicateTop()
      requires Valid()
      modifies this`status, registers, rom, memory
      ensures Valid()
      ensures var p := Pop(old(Abs()));
              Abs() == if p.ok then Push(Push(p.state, p.value).state, p.value).state else p.state
    {
      hide Pop, Push;
      var popped, value := PopWord();
      if popped {
        var first := PushWord(value);
        var second := PushWord(value);
      }
    }

    /** The switch in vm_run_instruction with the write-back of a computed result. */
    method Dispatch(i: Instruction)
      requires Valid() && i.register1 < REGISTER_COUNT && i.register2 < REGISTER_COUNT
      modifies this, registers, rom, memory, alu
      ensures Valid() && Abs() == Act(old(Abs()), i, ActionOf(i.opcode))
    {
      hide Pop, Push, ReadScalar, WriteScalar, Serve, Merged, ActionOf;
      RealOperation(i.opcode);
      LoadSizes(i.opcode);
      match ActionOf(i.opcode) {
        case NoAction =>
        case PopWord => var _, _ := PopWord();
        case PopRegister =>
          var popped, value := PopWord();
          if popped {
            registers[i.register1] := value;
          }
        case PushRegister => var _ := PushWord(registers[i.register1]);
        case PushImmediate => var _ := PushWord(i.immediate);
        case Duplicate => DuplicateTop();
        case MoveRegister => registers[i.register1] := registers[i.register2];
        case MoveImmediate => registers[i.register1] := i.immediate;
        case Compute(op, right, writes) => Calculate(i, op, right, writes);
        case LoadFrom(size) => Load(i.register1, registers[i.register2], i.immediate, size);
        case StoreTo(size) => Store(registers[i.register1], registers[i.register2], i.immediate, size);
        case Interrupt => Interrupt(i.immediate);
        case SystemCall =>
        case Jump => registers[R_PC] := i.immediate;
        case JumpAndLink =>
          registers[R_LP] := registers[R_PC];
          registers[R_PC] := i.immediate;
        case Return => registers[R_PC] := registers[R_LP];
        case Illegal => SetStatus(InvalidOpcode);
      }
    }

    method Calculate(i: Instruction, op: Operation, right: Operand, writes: bool)
      requires Valid() && i.register1 < REGISTER_COUNT && i.register2 < REGISTER_COUNT && !op.NoOp?
      modifies this`status, this`flags, registers, alu
      ensures Valid()
      ensures var m := old(Abs());
              var computed := Operate(m, op, m.Register(i.register1), OperandOf(m, i, right));
              Abs() == if writes
                && !computed.status.IsError() then computed.WithRegister(i.register1, computed.alu.result)
                       else computed
    {
      hide Operate;
      DoOperation(op, registers[i.register1],
                  if right.Register2? then registers[i.register2] else if right.Immediate? then i.immediate else 0);
      if writes && !status.IsError() {
        registers[i.register1] := alu.result;
      }
    }

    /** vm_run_instruction. */
    method RunInstruction(i: Instruction)
      requires Valid()
      modifies this, registers, rom, memory, alu
      ensures Valid() && Abs() == Execute(old(Abs()), i)
    {
      hide Holds, Act, ActionOf;
      registers[R_ZERO] := 0;
      var holds := CheckCondition(i.condition);
      if !holds {
        return;
      }
      if i.register1 >= REGISTER_COUNT || i.register2 >= REGISTER_COUNT {
        SetStatus(InvalidOpcode);
        return;
      }
      Dispatch(i);
      registers[R_ZERO] := 0;
      if !alu.op.NoOp? {
        alu.Reset();
      }
    }

    // ----- loading and running -----

    /** vm_loadDump. */
    method LoadDump(program: seq<Byte>)
      requires Valid()
      modifies this`status, this`entryPoint, rom
      ensures Valid()
      ensures Abs() == if |program| > ROM_SIZE then old(Abs()).WithStatus(OutOfMemory) else Dumped(old(Abs()), program)
    {
      if |program| > ROM_SIZE {
        SetStatus(OutOfMemory);
        return;
      }
      for i := 0 to |program|
        invariant forall k :: 0 <= k < ROM_SIZE ==> rom[k] == if k < i then program[k] else old(rom[k])
        modifies rom
      {
        rom[i] := program[i];
      }
      entryPoint := 0;
      assert rom[..] == Dumped(old(Abs()), program).rom;
    }

    /** vm_loadImage: nothing is written unless every section fits. */
    method LoadImage(image: seq<Byte>) returns (error: Option<ImageError>)
      requires Valid()
      modifies this`entryPoint, rom
      ensures Valid()
      ensures match Loading.Load(old(rom[..]), image)
              case Err(e) => error == Some(e) && Abs() == old(Abs())
              case Ok(loaded) => error == None && Abs() == old(Abs()).(rom := loaded.0, entry := loaded.1)
    {
      hide ImageFormat.Decode, NormalForm, Copied, InRom;
      var decoded := DecodeImage(image);
      if decoded.Err? {
        return Some(decoded.error);
      }
      if decoded.value.kind != EXECUTABLE {
        return Some(InvalidKind);
      }
      var sections := decoded.value.sections;
      var fits := AllInRom(sections);
      if !fits {
        return Some(Bounds);
      }
      DecodedSections(image);
      CopySections(sections);
      entryPoint := decoded.value.entryPoint;
      error := None;
    }

    method AllInRom(sections: seq<Section>) returns (fits: bool)
      ensures fits <==> forall i :: 0 <= i < |sections| ==> InRom(sections[i])
    {
      for index := 0 to |sections|
        invariant forall i :: 0 <= i < index ==> InRom(sections[i])
      {
        if sections[index].address > ROM_SIZE || sections[index].size > ROM_SIZE - sections[index].address {
          return false;
        }
      }
      fits := true;
    }

    /** A later section overwrites an earlier one. */
    method CopySections(sections: seq<Section>)
      requires Valid() && Loadable(sections)
      modifies rom
      ensures rom[..] == Copied(old(rom[..]), sections)
    {
      hide Occupies, NormalForm, InRom;
      for index := 0 to |sections|
        invariant rom[..] == Copied(old(rom[..]), sections[..index])
      {
        CopySection(sections[index]);
        CopiedStep(old(rom[..]), sections, index);
      }
      assert sections[..|sections|] == sections;
    }

    method CopySection(s: Section)
      requires Valid() && InRom(s) && NormalForm(s)
      modifies rom
      ensures rom[..] == Splice(old(rom[..]), s.address, Occupies(s))
    {
      for k := 0 to s.size
        invariant forall p :: 0 <= p < ROM_SIZE ==>
                    rom[p] == if s.address <= p < s.address + k then Occupies(s)[p - s.address] else old(rom[p])
      {
        rom[s.address + k] := if s.kind == BSS then 0 else s.data.value[k];
      }
      assert rom[..] == Splice(old(rom[..]), s.address, Occupies(s));
    }

    /** vm_run: returns for every machine whose run stops at all, in the state in which it stopped. */
    method Run(ghost bound: nat)
      requires Valid() && Stopped(Steps(Started(Abs()), bound))
      modifies this, registers, rom, memory, alu
      ensures Valid() && Stopped(Abs()) && Abs() == Steps(Started(old(Abs())), bound)
    {
      hide Step, Fetch, Execute;
      registers[R_PC] := entryPoint;
      registers[R_BP] := ROM_SIZE;
      registers[R_SP] := registers[R_BP];
      ghost var m := Abs();
      ghost var turns := 0;
      while !status.IsError() && !status.Halted?
        invariant Valid() && turns <= bound && Abs() == Steps(m, turns)
        decreases bound - turns
      {
        Turn();
        turns := turns + 1;
      }
      StopIsFinal(m, turns, bound);
    }

    /** The same loop for at most `limit` turns, whether the run stops or not; `turns` says how many were taken. */
    method RunTurns(limit: nat) returns (turns: nat)
      requires Valid()
      modifies this, registers, rom, memory, alu
      ensures Valid() && turns <= limit && Abs() == Steps(Started(old(Abs())), turns)
      ensures turns < limit ==> Stopped(Abs())
    {
      hide Step, Fetch, Execute;
      registers[R_PC] := entryPoint;
      registers[R_BP] := ROM_SIZE;
      registers[R_SP] := registers[R_BP];
      ghost var m := Abs();
      turns := 0;
      while turns < limit && !status.IsError() && !status.Halted?
        invariant Valid() && turns <= limit && Abs() == Steps(m, turns)
      {
        Turn();
        turns := turns + 1;
      }
    }

    method Turn()
      requires Valid() && !Stopped(Abs())
      modifies this, registers, rom, memory, alu
      ensures Valid() && Abs() == Step(old(Abs()))
    {
      hide Execute, Fetch;
      var instruction := FetchInstruction();
      FetchFails(old(Abs()));
      if !status.IsError() {
        RunInstruction(instruction.value);
      }
    }
  }

  /** A failed fetch sets an error, so a missing instruction is never run. */
  lemma FetchFails(m: State)
    requires m.Valid()
    ensures Fetch(m).instruction.None? ==> Fetch(m).state.status.IsError()
  {
    hide FromLE;
  }

  lemma PcUnmoved(m: State)
    requires m.Valid()
    ensures m.WithRegister(R_PC, m.Register(R_PC)) == m
  {
    assert m.registers[R_PC := m.registers[R_PC]] == m.registers;
  }

  lemma PcMoves(m: State, pc: Word, i: nat)
    requires m.Valid() && m.InRange(pc, INSTRUCTION_SIZE) && i < INSTRUCTION_SIZE
    ensures var there := m.WithRegister(R_PC, Wrap(pc + i));
            && there.Register(R_PC) == Wrap(pc + i) && there.InRange(Wrap(pc + i), 1) && there.Memory() == m.Memory()
            && FetchedBytes(m, pc)[i] == m.Memory()[Wrap(pc + i)]
            && there.WithRegister(R_PC, Wrap(1 + Wrap(pc + i) as int)) == m.WithRegister(R_PC, Wrap(pc + i + 1))
  {
    WrapAdd(pc, i);
    WrapAdd(pc, i + 1);
    WrapAdd(Wrap(pc + i), 1);
    assert m.registers[R_PC := Wrap(pc + i)][R_PC := Wrap(pc + i + 1)] == m.registers[R_PC := Wrap(pc + i + 1)];
  }

  /** Writing the next byte behind those already written. */
  lemma OneMoreWritten(m: State, address: nat, bytes: seq<Byte>, k: nat)
    requires m.Valid() && k < |bytes| && address + |bytes| <= |m.Memory()|
    ensures var written := m.WithMemory(Splice(m.Memory(), address, bytes[..k]));
            && written.Memory() == Splice(m.Memory(), address, bytes[..k])
            && written.WithMemory(Splice(written.Memory(), address + k, [bytes[k]]))
               == m.WithMemory(Splice(m.Memory(), address, bytes[..k + 1]))
  {
    hide Splice;
    assert bytes[..k + 1] == bytes[..k] + [bytes[k]];
    SpliceSplice(m.Memory(), address, bytes[..k], [bytes[k]]);
  }

  lemma LoadSizes(opcode: Byte)
    ensures ActionOf(opcode).LoadFrom? ==> ActionOf(opcode).size in {1, 2, 4}
  {
  }

  /** The machine with a raw program at the start of ROM. */
  function Dumped(m: State, program: seq<Byte>): (s: State)
    requires m.Valid() && |program| <= ROM_SIZE
    ensures s.Valid()
  {
    m.(rom := program + m.rom[|program|..], entry := 0)
  }

  /** A dump replaces the first bytes of ROM and the entry point, and nothing else. */
  lemma DumpReplaces(m: State, program: seq<Byte>)
    requires m.Valid() && |program| <= ROM_SIZE
    ensures var after := Dumped(m, program);
            && after == m.(rom := after.rom, entry := 0)
            && forall p :: 0 <= p < ROM_SIZE ==> after.rom[p] == if p < |program| then program[p] else m.rom[p]
  {
  }

  lemma CopiedStep(rom: seq<Byte>, sections: seq<Section>, index: nat)
    requires |rom| == ROM_SIZE && Loadable(sections) && index < |sections|
    ensures Copied(rom, sections[..index + 1]) ==
            Splice(Copied(rom, sections[..index]), sections[index].address, Occupies(sections[index]))
  {
    hide Splice, Occupies, NormalForm;
    assert sections[..index + 1][..index] == sections[..index];
  }

  lemma Rest(word: nat, p: nat)
    requires p > 0
    ensures word - word % p == (word / p) * p
  {
  }

  /** Masking the low bits off and or-ing new ones in replaces them. */
  lemma MaskReplaces(word: nat, low: nat, n: nat, k: nat)
    requires k <= n && word < Pow2(n) && low < Pow2(k)
    ensures Pow2(k) <= Pow2(n) && Or(And(word, Pow2(n) - Pow2(k)), low) == word - word % Pow2(k) + low
  {
    hide And, Or, Pow2;
    MaskRoundsDown(word, n, k);
    Rest(word, Pow2(k));
    OrCommutes((word / Pow2(k)) * Pow2(k), low);
    OrIsAdd(low, word / Pow2(k), k);
  }

  lemma MergeByMask(word: Word, low: nat, k: nat)
    requires (k == 8 && low < 0x100) || (k == 16 && low < 0x1_0000)
    ensures k == 8 ==> Or(And(word, 0xFFFF_FF00), low) == word - word % 0x100 + low
    ensures k == 16 ==> Or(And(word, 0xFFFF_0000), low) == word - word % 0x1_0000 + low
  {
    hide And, Or, Pow2;
    WordWidths();
    MaskReplaces(word, low, 32, k);
  }

  lemma MergedByMask(word: Word, value: nat, size: nat)
    requires size == 1 || size == 2 || size == 4
    ensures size == 1 ==> Merged(word, value, size) == Or(And(word, 0xFFFF_FF00), value % 0x100)
    ensures size == 2 ==> Merged(word, value, size) == Or(And(word, 0xFFFF_0000), value % 0x1_0000)
    ensures size == 4 ==> Merged(word, value, size) == value % WORD_RANGE
  {
    hide And, Or;
    if size < 4 {
      MergeByMask(word, if size == 1 then value % 0x100 else value % 0x1_0000, 8 * size);
    }
  }

  lemma ReadKeeps(m: State, address: nat, size: nat)
    requires m.Valid() && m.InRange(address, size)
    ensures ReadScalar(m, address, size).state == m
  {
  }

  lemma {:induction false} OrCommutes(x: nat, y: nat)
    ensures Or(x, y) == Or(y, x)
  {
    if x != 0 && y != 0 { OrCommutes(x / 2, y / 2); }
  }

  lemma SingleByte(b: seq<Byte>, at: nat)
    requires at < |b|
    ensures b[at..at + 1] == [b[at]] && FromLE(b[at..at + 1]) == b[at]
  {
    assert FromLE([b[at]]) == b[at];
  }

  lemma NothingRead(b: seq<Byte>, at: nat)
    requires at <= |b|
    ensures FromLE(b[at..at]) == 0
  {
  }

  lemma SpliceNothing(b: seq<Byte>, at: nat)
    requires at <= |b|
    ensures Splice(b, at, []) == b
  {
  }
}
