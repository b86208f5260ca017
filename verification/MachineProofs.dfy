/** Properties of single instructions and of whole runs. */
module MachineProofs {
  import opened Wrappers
  import opened Bits
  import opened Bytes
  import opened ImageFormat
  import opened Alu
  import opened Instructions
  import opened Machine

  // ----- memory -----

  lemma SpliceReadBack(b: seq<Byte>, at: nat, part: seq<Byte>)
    requires at + |part| <= |b|
    ensures Splice(b, at, part)[at..at + |part|] == part
  {
  }

  lemma SpliceSame(b: seq<Byte>, at: nat, n: nat)
    requires at + n <= |b|
    ensures Splice(b, at, b[at..at + n]) == b
  {
  }

  /** A value written in range is read back modulo its width, across the ROM boundary too, and nothing else changes. */
  lemma ReadAfterWrite(m: State, address: nat, value: nat, size: nat)
    requires m.Valid() && m.InRange(address, size)
    ensures var after := WriteScalar(m, address, value, size);
            && ReadScalar(after, address, size) == Read(after, value % Pow2(8 * size))
            && after == m.WithMemory(after.Memory())
            && forall p :: 0 <= p < |m.Memory()| && !(address <= p < address + size) ==>
                 after.Memory()[p] == m.Memory()[p]
  {
    hide LE, FromLE, Pow2;
    SpliceReadBack(m.Memory(), address, LE(value, size));
    ReadBack(value, size);
  }

  // ----- stack -----

  /** What a pop that succeeds has done. */
  lemma PopReads(m: State)
    requires m.Valid() && !m.status.IsError() && Pop(m).ok
    ensures 4 <= m.Register(R_SP) <= |m.Memory()|
    ensures var sp := m.Register(R_SP);
            Pop(m) == Popped(m.WithRegister(R_SP, sp - 4), true, Wrap(FromLE(m.Memory()[sp - 4..sp])))
  {
    hide FromLE;
  }

  lemma PointerRestored(m: State, sp: Word)
    requires m.Valid()
    ensures var moved := m.WithRegister(R_SP, sp); moved.Memory() == m.Memory() && moved.Register(R_SP) == sp
    ensures m.WithRegister(R_SP, sp).WithMemory(m.Memory()).WithRegister(R_SP, m.Register(R_SP)) == m
  {
    SplitMemory(m);
    assert m.registers[R_SP := sp][R_SP := m.registers[R_SP]] == m.registers;
  }

  lemma WordRestored(b: seq<Byte>, at: nat)
    requires at + 4 <= |b|
    ensures Splice(b, at, LE(Wrap(FromLE(b[at..at + 4])), 4)) == b
  {
    hide LE, FromLE;
    var word := b[at..at + 4];
    FromLEWord(word);
    WrapWord(FromLE(word));
    WriteBack(word);
    SpliceSame(b, at, 4);
  }

  /** Push after pop restores the state, the memory word included. */
  lemma PushUndoesPop(m: State)
    requires m.Valid() && !m.status.IsError() && Pop(m).ok
    ensures Push(Pop(m).state, Pop(m).value) == Pushed(m, true)
  {
    hide LE, FromLE, Splice, Push;
    var sp := m.Register(R_SP);
    PopReads(m);
    WrapWord(sp);
    PointerRestored(m, sp - 4);
    WordRestored(m.Memory(), sp - 4);
    PushWrites(Pop(m).state, Pop(m).value);
  }

  lemma SplitMemory(m: State)
    requires m.Valid()
    ensures m.Memory()[..ROM_SIZE] == m.rom && m.Memory()[ROM_SIZE..] == m.ram
  {
  }

  /** A push in a running state that has room writes one word and moves the stack pointer. */
  lemma PushWrites(m: State, value: Word)
    requires m.Valid() && !m.status.IsError() && CanPush(m.Register(R_SP), m.Register(R_BP))
             && m.InRange(m.Register(R_SP), 4)
    ensures Push(m, value) ==
            var stored := m.WithMemory(Splice(m.Memory(), m.Register(R_SP), LE(value, 4)));
            Pushed(stored.WithRegister(R_SP, Wrap(m.Register(R_SP) + 4)), true)
  {
    hide LE;
  }

  /**
    Pop after push gives the value back, and only the pushed word's bytes remain in memory.
    The one exception needs RAM at the last word address: there the pointer wraps below
    the base, and the word is lost.
   */
  lemma PopUndoesPush(m: State, value: Word)
    requires m.Valid() && !m.status.IsError() && Push(m, value).ok
    ensures Pop(Push(m, value).state) ==
            if m.Register(R_SP) + WORD_SIZE < WORD_RANGE
            then Popped(m.WithMemory(Splice(m.Memory(), m.Register(R_SP), LE(value, 4))), true, value)
            else Popped(Push(m, value).state.WithStatus(StackUnderflow), false, 0)
  {
    hide LE, FromLE;
    var sp := m.Register(R_SP);
    PushWrites(m, value);
    WrapAdd(sp, WORD_SIZE);
    if sp + WORD_SIZE < WORD_RANGE {
      var pushed := Push(m, value).state;
      var b := Splice(m.Memory(), sp, LE(value, 4));
      assert pushed.Memory() == b;
      SpliceReadBack(m.Memory(), sp, LE(value, 4));
      ReadBackWord(value);
      WrapWord(value);
      assert pushed.registers[R_SP := sp] == m.registers;
    }
  }

  /** The n words stored from `base` on. */
  function WordsFrom(b: seq<Byte>, base: nat, n: nat): (w: seq<Word>)
    requires base + 4 * n <= |b|
    ensures |w| == n
  {
    if n == 0 then []
    else
      FromLEWord(b[base + 4 * n - 4..base + 4 * n]);
      WordsFrom(b, base, n - 1) + [FromLE(b[base + 4 * n - 4..base + 4 * n])]
  }

  /** The stack pointers delimit whole words inside memory, at most 64 of them. */
  predicate Stacked(m: State) {
    && m.Valid()
    && var sp, bp := m.Register(R_SP), m.Register(R_BP);
    && bp <= sp && (sp - bp) % WORD_SIZE == 0 && sp - bp <= STACK_SIZE && sp <= ROM_SIZE + |m.ram|
  }

  /** The abstract stack, bottom first. */
  function Contents(m: State): (w: seq<Word>)
    requires Stacked(m)
    ensures |w| <= 64
  {
    WordsFrom(m.Memory(), m.Register(R_BP), (m.Register(R_SP) - m.Register(R_BP)) / WORD_SIZE)
  }

  lemma {:induction false} WordsFromSame(b: seq<Byte>, c: seq<Byte>, base: nat, n: nat)
    requires base + 4 * n <= |b| && base + 4 * n <= |c| && b[..base + 4 * n] == c[..base + 4 * n]
    ensures WordsFrom(b, base, n) == WordsFrom(c, base, n)
  {
    if n > 0 {
      var end := base + 4 * n;
      assert b[..end][end - 4..end] == b[end - 4..end] && c[..end][end - 4..end] == c[end - 4..end];
      assert b[..end][..end - 4] == b[..end - 4] && c[..end][..end - 4] == c[..end - 4];
      WordsFromSame(b, c, base, n - 1);
    }
  }

  /**
    A push appends to the abstract stack and changes nothing but the pushed word and $sp; it
    fails exactly when the stack holds 64 words or memory ends. At the last word address of
    a larger RAM it succeeds but wraps $sp, and what is left is no stack.
   */
  lemma PushAppends(m: State, value: Word)
    requires Stacked(m) && !m.status.IsError()
    ensures Push(m, value).ok <==> |Contents(m)| < 64 && m.Register(R_SP) + WORD_SIZE <= ROM_SIZE + |m.ram|
    ensures Push(m, value).ok ==> (Stacked(Push(m, value).state) <==> m.Register(R_SP) + WORD_SIZE < WORD_RANGE)
    ensures Push(m, value).ok && Stacked(Push(m, value).state) ==>
            Contents(Push(m, value).state) == Contents(m) + [value]
    ensures Push(m, value).ok ==>
              var pushed, sp: nat := Push(m, value).state, m.Register(R_SP);
              && pushed == m.WithMemory(pushed.Memory()).WithRegister(R_SP, Wrap(sp + WORD_SIZE))
              && forall p :: 0 <= p < |m.Memory()| && !(sp <= p < sp + WORD_SIZE) ==>
                   pushed.Memory()[p] == m.Memory()[p]
    ensures !Push(m, value).ok ==> Push(m, value).state == m.(status := Push(m, value).state.status)
  {
    hide LE, FromLE, WordsFrom;
    if Push(m, value).ok {
      var sp: nat, bp: nat := m.Register(R_SP), m.Register(R_BP);
      PushWrites(m, value);
      var b := Splice(m.Memory(), sp, LE(value, 4));
      WrapAdd(sp, WORD_SIZE);
      var pushed := Push(m, value).state;
      assert pushed.Memory() == b && pushed.Register(R_SP) == Wrap(sp + 4) && pushed.Register(R_BP) == bp;
      AppendWord(m.Memory(), bp, (sp - bp) / 4, value);
      assert (sp + 4 - bp) / 4 == (sp - bp) / 4 + 1;
    }
  }

  lemma AppendWord(b: seq<Byte>, base: nat, n: nat, value: Word)
    requires base + 4 * n + 4 <= |b|
    ensures WordsFrom(Splice(b, base + 4 * n, LE(value, 4)), base, n + 1) == WordsFrom(b, base, n) + [value]
  {
    hide LE, FromLE;
    var c := Splice(b, base + 4 * n, LE(value, 4));
    WordsFromSame(b, c, base, n);
    SpliceReadBack(b, base + 4 * n, LE(value, 4));
    ReadBackWord(value);
  }

  /** A pop removes and returns the last word and leaves memory alone; it fails exactly on the empty stack. */
  lemma PopRemoves(m: State)
    requires Stacked(m) && !m.status.IsError()
    ensures Pop(m).ok <==> Contents(m) != []
    ensures Pop(m).ok ==>
              && WORD_SIZE <= m.Register(R_SP) && Pop(m).state == m.WithRegister(R_SP, m.Register(R_SP) - WORD_SIZE)
              && Stacked(Pop(m).state) && Contents(m) == Contents(Pop(m).state) + [Pop(m).value]
    ensures !Pop(m).ok ==> Pop(m).state == m.WithStatus(StackUnderflow)
  {
    hide FromLE;
    if Pop(m).ok {
      var sp, bp := m.Register(R_SP), m.Register(R_BP);
      var n := (sp - bp) / 4;
      assert sp == bp + 4 * n;
      FromLEWord(m.Memory()[sp - 4..sp]);
      WrapWord(FromLE(m.Memory()[sp - 4..sp]));
      assert (sp - 4 - bp) / 4 == n - 1;
    }
  }

  // ----- errors -----

  predicate Outside(m: State, p: nat) {
    p >= |m.Memory()|
  }

  /** Some byte of the access lies behind the end of memory. */
  predicate ReachesOutside(m: State, address: nat, size: nat) {
    exists p :: address <= p < address + size && Outside(m, p)
  }

  lemma OutsideIsOutOfRange(m: State, address: nat, size: nat)
    requires m.Valid() && size > 0
    ensures ReachesOutside(m, address, size) <==> !m.InRange(address, size)
  {
    if !m.InRange(address, size) { assert Outside(m, address + size - 1); }
  }

  /**
    A load or store fails exactly when some byte of it lies outside memory. Then it has no
    effect at all, not even on the bytes that lie inside.
   */
  lemma MemoryInstructionFails(m: State, i: Instruction)
    requires Steady(m) && m.status.Normal? && Holds(m.flags, i.condition) == Some(true)
    requires i.register1 < REGISTER_COUNT && i.register2 < REGISTER_COUNT && 34 <= i.opcode <= 39
    ensures var size := if i.opcode <= 35 then 1 else if i.opcode <= 37 then 2 else 4;
            var outside := ReachesOutside(m, m.Register(i.register2) + i.immediate, size);
            && (Execute(m, i).status == OutOfMemory <==> outside)
            && (outside ==> Execute(m, i) == m.(status := OutOfMemory))
            && (!outside ==> Execute(m, i).status.Normal?)
  {
    hide ReachesOutside, Holds, ActionOf, Merged, ReadScalar, LE, Splice;
    MemoryAction(i.opcode);
    var start := m.WithRegister(R_ZERO, 0);
    assert start.registers == m.registers && start == m;
    var size := if i.opcode <= 35 then 1 else if i.opcode <= 37 then 2 else 4;
    OutsideIsOutOfRange(m, m.Register(i.register2) + i.immediate, size);
  }

  lemma MemoryAction(opcode: Byte)
    requires 34 <= opcode <= 39
    ensures var size := if opcode <= 35 then 1 else if opcode <= 37 then 2 else 4;
            ActionOf(opcode) == if opcode % 2 == 0 then LoadFrom(size) else StoreTo(size)
  {
  }

  /** An instruction that ends in an error has changed nothing but the status. */
  lemma ErrorIsAtomic(m: State, i: Instruction)
    requires m.Valid() && !m.status.IsError() && m.alu == IDLE && Execute(m, i).status.IsError()
    ensures Execute(m, i) == m.WithRegister(R_ZERO, 0).(status := Execute(m, i).status)
  {
    hide ActionOf, Operate, ReadScalar, Serve, FlagsOf;
    var start := m.WithRegister(R_ZERO, 0);
    var holds := Holds(start.flags, i.condition);
    if holds == Some(true) && i.register1 < REGISTER_COUNT && i.register2 < REGISTER_COUNT {
      var action := ActionOf(i.opcode);
      ActionErrors(start, i, action);
      assert start.registers[R_ZERO := 0] == start.registers;
    }
  }

  /** The same for the action alone. */
  lemma ActionErrors(m: State, i: Instruction, action: Action)
    requires m.Valid() && !m.status.IsError() && m.alu == IDLE
    requires i.register1 < REGISTER_COUNT && i.register2 < REGISTER_COUNT && action == ActionOf(i.opcode)
    requires Act(m, i, action).status.IsError()
    ensures Act(m, i, action) == m.(status := Act(m, i, action).status)
  {
    hide ActionOf, FlagsOf, LE, FromLE;
    match action {
      case Duplicate =>
        if Pop(m).ok {
          PushUndoesPop(m);
          PushErrors(m, Pop(m).value);
        }
      case PushRegister => PushErrors(m, m.Register(i.register1));
      case PushImmediate => PushErrors(m, i.immediate);
      case _ =>
    }
  }

  lemma PushErrors(m: State, value: Word)
    requires m.Valid() && !m.status.IsError()
    ensures !Push(m, value).ok ==> Push(m, value).state == m.(status := Push(m, value).state.status)
    ensures Push(m, value).ok ==> !Push(m, value).state.status.IsError()
  {
    hide LE;
  }

  // ----- runs -----

  /** What holds at every step boundary. */
  predicate Steady(m: State) {
    m.Valid() && m.Register(R_ZERO) == 0 && m.alu == IDLE
  }

  lemma StepSteady(m: State)
    requires Steady(m)
    ensures Steady(Step(m))
  {
    hide ActionOf, FlagsOf, Push, Pop, ReadScalar, WriteScalar, Decoded, Operate;
    if !Stopped(m) && Fetch(m).instruction.Some? {
      var f := Fetch(m);
      ExecuteSteady(f.state, f.instruction.value);
    }
  }

  lemma ExecuteSteady(m: State, i: Instruction)
    requires m.Valid() && m.alu == IDLE
    ensures Steady(Execute(m, i))
  {
    hide ActionOf, Holds, Push, Pop, ReadScalar, WriteScalar, Operate, FlagsOf, Serve;
    var start := m.WithRegister(R_ZERO, 0);
    if i.register1 < REGISTER_COUNT && i.register2 < REGISTER_COUNT {
      ActKeepsIdle(start, i, ActionOf(i.opcode));
    }
  }

  /** An action leaves the arithmetic unit idle or in use; Settle resets the second. */
  lemma ActKeepsIdle(m: State, i: Instruction, action: Action)
    requires m.Valid() && m.alu == IDLE
    requires i.register1 < REGISTER_COUNT && i.register2 < REGISTER_COUNT && action == ActionOf(i.opcode)
    ensures Act(m, i, action).alu.op.NoOp? ==> Act(m, i, action).alu == IDLE
  {
    hide ActionOf, FlagsOf, LE, FromLE;
    RealOperation(i.opcode);
  }

  /** No opcode computes nothing. */
  lemma RealOperation(opcode: Byte)
    ensures ActionOf(opcode).Compute? ==> !ActionOf(opcode).op.NoOp?
  {
  }

  /** Every step boundary of every run is steady. */
  lemma {:induction false} RunSteady(m: State, n: nat)
    requires Steady(m)
    ensures Steady(Steps(m, n))
  {
    hide Step;
    if n > 0 {
      RunSteady(m, n - 1);
      StepSteady(Steps(m, n - 1));
    }
  }

  /** The first error, like a halt, is final: no later step changes anything. */
  lemma {:induction false} StopIsFinal(m: State, k: nat, n: nat)
    requires m.Valid() && k <= n && Stopped(Steps(m, k))
    ensures Steps(m, n) == Steps(m, k)
    decreases n - k
  {
    if k < n {
      assert Steps(m, k + 1) == Steps(m, k);
      StopIsFinal(m, k + 1, n);
    }
  }

  /** A step into an error has only fetched: either nothing happened, or $pc moved and $zero was cleared. */
  lemma StepErrorIsAtomic(m: State)
    requires Steady(m) && !Stopped(m) && Step(m).status.IsError()
    ensures || Step(m) == m.(status := OutOfMemory)
            || (Fetch(m).instruction.Some?
                && Step(m) == m.WithRegister(R_PC,
                                             Wrap(m.Register(R_PC) + INSTRUCTION_SIZE)).(status := Step(m).status))
  {
    hide ActionOf, Execute, Decoded;
    var f := Fetch(m);
    if f.instruction.Some? {
      ErrorIsAtomic(f.state, f.instruction.value);
      assert f.state.registers[R_ZERO := 0] == f.state.registers;
    }
  }

  // ----- the stack over a whole run -----

  /** The register an executed instruction names as its destination. */
  function Destination(m: State, i: Instruction): Option<nat>
    requires m.Valid()
  {
    if Holds(m.flags, i.condition) != Some(true) then None
    else
      match ActionOf(i.opcode)
      case PopRegister => Some(i.register1)
      case MoveRegister => Some(i.register1)
      case MoveImmediate => Some(i.register1)
      case Compute(_, _, writes) => if writes then Some(i.register1) else None
      case LoadFrom(_) => Some(i.register1)
      case _ => None
  }

  /** The next instruction, if one is executed, does not name $sp or $bp as its destination. */
  predicate LeavesStack(m: State)
    requires m.Valid()
  {
    var f := Fetch(m);
    !Stopped(m) && f.instruction.Some? ==>
      var d := Destination(f.state, f.instruction.value);
      d != Some(R_SP) && d != Some(R_BP)
  }

  /** The stack pointers of a program that leaves them to push and pop. */
  predicate Disciplined(m: State) {
    && m.Valid()
    && m.Register(R_BP) == ROM_SIZE
    && ROM_SIZE <= m.Register(R_SP) <= ROM_SIZE + STACK_SIZE
    && m.Register(R_SP) % WORD_SIZE == 0
  }

  lemma PushDisciplined(m: State, value: Word)
    requires Disciplined(m)
    ensures Disciplined(Push(m, value).state)
  {
    hide LE;
    var sp := m.Register(R_SP);
    if CanPush(sp, ROM_SIZE) && m.InRange(sp, 4) {
      assert Wrap(sp + 4) == sp + 4;
      Quarters(sp);
    }
  }

  lemma PopDisciplined(m: State)
    requires Disciplined(m)
    ensures Disciplined(Pop(m).state)
  {
    hide FromLE;
    Quarters(m.Register(R_SP));
  }

  lemma Quarters(sp: nat)
    requires sp % 4 == 0
    ensures (sp + 4) % 4 == 0 && (sp >= 4 ==> (sp - 4) % 4 == 0)
  {
  }

  lemma ActDisciplined(m: State, i: Instruction, action: Action)
    requires Disciplined(m) && Holds(m.flags, i.condition) == Some(true)
    requires i.register1 < REGISTER_COUNT && i.register2 < REGISTER_COUNT && action == ActionOf(i.opcode)
    requires Destination(m, i) != Some(R_SP) && Destination(m, i) != Some(R_BP)
    ensures Disciplined(Act(m, i, action))
  {
    hide ActionOf, FlagsOf, LE, FromLE, Push, Pop, ReadScalar, Holds;
    match action {
      case PopWord => PopDisciplined(m);
      case PopRegister => PopDisciplined(m);
      case PushRegister => PushDisciplined(m, m.Register(i.register1));
      case PushImmediate => PushDisciplined(m, i.immediate);
      case Duplicate =>
        PopDisciplined(m);
        if Pop(m).ok {
          PushDisciplined(Pop(m).state, Pop(m).value);
          PushDisciplined(Push(Pop(m).state, Pop(m).value).state, Pop(m).value);
        }
      case _ =>
    }
  }

  lemma StepDisciplined(m: State)
    requires Disciplined(m) && LeavesStack(m)
    ensures Disciplined(Step(m))
  {
    hide ActionOf, Act, Decoded, Destination;
    var f := Fetch(m);
    if !Stopped(m) && f.instruction.Some? {
      ExecuteDisciplined(f.state, f.instruction.value);
    }
  }

  lemma ExecuteDisciplined(m: State, i: Instruction)
    requires Disciplined(m) && Destination(m, i) != Some(R_SP) && Destination(m, i) != Some(R_BP)
    ensures Disciplined(Execute(m, i))
  {
    hide ActionOf, Act, Holds;
    var start := m.WithRegister(R_ZERO, 0);
    var holds := Holds(start.flags, i.condition);
    if holds == Some(true) && i.register1 < REGISTER_COUNT && i.register2 < REGISTER_COUNT {
      assert Destination(start, i) == Destination(m, i);
      ActDisciplined(start, i, ActionOf(i.opcode));
    }
  }

  /** In a run that never writes $sp or $bp directly the stack stays word-aligned inside its 256 bytes. */
  lemma {:induction false} RunDisciplined(m: State, n: nat)
    requires m.Valid() && forall k :: 0 <= k < n ==> LeavesStack(Steps(Started(m), k))
    ensures Disciplined(Steps(Started(m), n))
  {
    hide Step, LeavesStack;
    if n > 0 {
      RunDisciplined(m, n - 1);
      assert LeavesStack(Steps(Started(m), n - 1));
      StepDisciplined(Steps(Started(m), n - 1));
    }
  }

  // ----- compare, then branch -----

  /** After an unsigned comparison the conditions decide the unsigned relations. */
  lemma UnsignedComparison(left: Word, right: Word)
    ensures var f := FlagsOf(Sub, left, right);
            && Holds(f, EQ) == Some(left == right) && Holds(f, NE) == Some(left != right)
            && Holds(f, HS) == Some(left >= right) && Holds(f, LO) == Some(left < right)
            && Holds(f, UH) == Some(left > right) && Holds(f, UL) == Some(left <= right)
  {
  }

  /** After a signed comparison the conditions decide the signed relations, overflow or not. */
  lemma SignedComparison(left: Word, right: Word)
    ensures var f, l, r := FlagsOf(SSub, left, right), Signed(left), Signed(right);
            && Holds(f, EQ) == Some(l == r) && Holds(f, NE) == Some(l != r)
            && Holds(f, LT) == Some(l < r) && Holds(f, LTE) == Some(l <= r)
            && Holds(f, GT) == Some(l > r) && Holds(f, GTE) == Some(l >= r)
  {
  }

  /** The four compare instructions set exactly those flags and touch nothing else. */
  lemma CompareInstruction(m: State, i: Instruction)
    requires Steady(m) && Holds(m.flags, i.condition) == Some(true) && 42 <= i.opcode <= 45
    requires i.register1 < REGISTER_COUNT && i.register2 < REGISTER_COUNT
    ensures var right := if i.opcode == 42 || i.opcode == 44 then m.Register(i.register2) else i.immediate;
            var op := if i.opcode <= 43 then Sub else SSub;
            Execute(m, i) == m.(flags := FlagsOf(op, m.Register(i.register1), right))
  {
    hide FlagsOf, Holds, ActionOf;
    CompareAction(i.opcode);
    var start := m.WithRegister(R_ZERO, 0);
    assert start.registers == m.registers && start == m;
  }

  lemma CompareAction(opcode: Byte)
    requires 42 <= opcode <= 45
    ensures ActionOf(opcode)
            == Compute(if opcode <= 43 then Sub else SSub,
                       if opcode == 42 || opcode == 44 then Register2 else Immediate, false)
  {
  }
}
