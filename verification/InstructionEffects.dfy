/**
  What each instruction does, in integers and bytes: the effect of an executed
  instruction on a running machine whose condition holds, apart from the tables by
  which it is dispatched and computed.
 */
module InstructionEffects {
  import opened Wrappers
  import opened Bits
  import opened Bytes
  import opened Alu
  import opened Instructions
  import opened Machine
  import opened MachineProofs

  // ----- conditions -----

  /** The flags in the order in which conditions 1 to 10 ask for them to be set and to be clear. */
  predicate FlagAt(f: Flags, k: nat) {
    if k == 0 then f.z else if k == 1 then f.n else if k == 2 then f.v else if k == 3 then f.c else f.s
  }

  /** Whether a condition of the instruction set holds. */
  predicate Satisfied(f: Flags, condition: Byte) {
    if condition == 0 then true
    else if condition <= 10 then FlagAt(f, (condition - 1) / 2) == (condition % 2 == 1)
    else if condition == 11 then f.c && !f.z
    else if condition == 12 then !Satisfied(f, 11)
    else if condition == 13 then f.n != f.v
    else if condition == 14 then f.z || Satisfied(f, 13)
    else if condition == 15 then !Satisfied(f, 14)
    else condition == 16 && !Satisfied(f, 13)
  }

  lemma HoldsIsSatisfied(f: Flags, condition: Byte)
    ensures Holds(f, condition) == if condition < CONDITION_TOTAL then Some(Satisfied(f, condition)) else None
  {
    assert Satisfied(f, 14) == (f.z || f.n != f.v);
  }

  /** An instruction whose condition does not hold has no effect; one without a condition or registers is an error. */
  lemma Skips(m: State, i: Instruction)
    requires Steady(m) && m.status.Normal?
    ensures i.condition >= 17 ==> Execute(m, i) == m.(status := InvalidCondition)
    ensures i.condition < 17 && !Satisfied(m.flags, i.condition) ==> Execute(m, i) == m
    ensures i.condition < 17 && Satisfied(m.flags, i.condition) && (i.register1 >= 32 || i.register2 >= 32) ==>
              Execute(m, i) == m.(status := InvalidOpcode)
  {
    hide Holds, Satisfied, Act, ActionOf, Settle;
    ZeroKept(m);
    HoldsIsSatisfied(m.flags, i.condition);
  }

  /** A running machine between two steps, about to execute an instruction whose condition holds. */
  predicate Ready(m: State, i: Instruction) {
    && Steady(m) && m.status.Normal? && i.condition < 17 && Satisfied(m.flags, i.condition)
    && i.register1 < REGISTER_COUNT && i.register2 < REGISTER_COUNT
  }

  /** Register r holds w, unless it is $zero; nothing else changes. */
  function Set(m: State, r: nat, w: Word): (s: State)
    requires m.Valid() && r < REGISTER_COUNT
    ensures s.Valid()
  {
    if r == 0 then m else m.WithRegister(r, w)
  }

  /** The first register holds w, and the flags say of it what they are for; nothing else changes. */
  function Computes(m: State, i: Instruction, w: Word, v: bool, c: bool, s: bool): State
    requires m.Valid() && i.register1 < REGISTER_COUNT
  {
    Set(m, i.register1, w).(flags := Flags(w >= 0x8000_0000, w == 0, v, c, s))
  }

  function Left(m: State, i: Instruction): Word
    requires Ready(m, i)
  {
    m.Register(i.register1)
  }

  function Right(m: State, i: Instruction, immediate: bool): Word
    requires Ready(m, i)
  {
    if immediate then i.immediate else m.Register(i.register2)
  }

  // ----- how an instruction is executed -----

  lemma ZeroKept(m: State)
    requires Steady(m)
    ensures m.WithRegister(R_ZERO, 0) == m && Settle(m) == m
  {
    assert m.registers[R_ZERO := 0] == m.registers;
  }

  lemma SettledRegister(m: State, r: nat, w: Word)
    requires Steady(m) && r < REGISTER_COUNT
    ensures Settle(m.WithRegister(r, w)) == Set(m, r, w)
  {
    assert m.registers[R_ZERO := w][R_ZERO := 0] == m.registers;
    assert r != R_ZERO ==> m.registers[r := w][R_ZERO := 0] == m.registers[r := w];
  }

  /** With its condition true, an instruction is its action and then the clearing of $zero and the unit. */
  lemma Acts(m: State, i: Instruction)
    requires Ready(m, i)
    ensures Execute(m, i) == Settle(Act(m, i, ActionOf(i.opcode)))
  {
    hide ActionOf, Act, Settle, Holds, Satisfied;
    HoldsIsSatisfied(m.flags, i.condition);
    ZeroKept(m);
  }

  lemma ComputeActs(m: State, i: Instruction, op: Operation, right: Operand, y: Word)
    requires Ready(m, i) && ActionOf(i.opcode) == Compute(op, right, true) && !op.NoOp?
    requires y == OperandOf(m, i, right)
    ensures Divides(op) && y == 0 ==> Execute(m, i) == m.(status := DivisionByZero)
    ensures !(Divides(op) && y == 0) ==>
            Execute(m, i) == Set(m, i.register1, ResultOf(op, Left(m, i), y)).(flags := FlagsOf(op, Left(m, i), y))
  {
    hide ActionOf, Settle, Satisfied, FlagsOf, ResultOf;
    Acts(m, i);
    if Divides(op) && y == 0 {
      ZeroKept(m.(status := DivisionByZero));
    } else {
      SettledResult(m, i, op, y);
    }
  }

  lemma SettledResult(m: State, i: Instruction, op: Operation, y: Word)
    requires Ready(m, i) && !op.NoOp? && !(Divides(op) && y == 0)
    ensures var computed, w := Operate(m, op, Left(m, i), y), ResultOf(op, Left(m, i), y);
            Settle(computed.WithRegister(i.register1, w))
            == Set(m, i.register1, w).(flags := FlagsOf(op, Left(m, i), y))
  {
    hide Satisfied, FlagsOf, ResultOf;
    SettledRegister(m, i.register1, ResultOf(op, Left(m, i), y));
  }

  // ----- moves -----

  /** 6 copies the second register, 7 the immediate. */
  lemma Moves(m: State, i: Instruction)
    requires Ready(m, i)
    ensures i.opcode == 6 ==> Execute(m, i) == Set(m, i.register1, m.Register(i.register2))
    ensures i.opcode == 7 ==> Execute(m, i) == Set(m, i.register1, i.immediate)
  {
    hide Satisfied, Settle;
    Acts(m, i);
    SettledRegister(m, i.register1, m.Register(i.register2));
    SettledRegister(m, i.register1, i.immediate);
  }

  // ----- arithmetic -----

  predicate Representable(n: int) { -0x8000_0000 <= n < 0x8000_0000 }

  predicate Carries(op: Operation, n: int) {
    if op.Add? || op.Mul? || op.Inc? then n >= 0x1_0000_0000 else (op.Sub? || op.Dec?) && n >= 0
  }

  lemma FlagsSay(op: Operation, x: Word, y: Word, n: int)
    requires (Divides(op) ==> y != 0) && n == Exact(op, x, y)
    ensures ResultOf(op, x, y) == n % 0x1_0000_0000
    ensures var w := ResultOf(op, x, y);
            FlagsOf(op, x, y) == Flags(w >= 0x8000_0000, w == 0, IsSigned(op) && !Representable(n), Carries(op, n),
                                       IsSigned(op))
  {
    hide Exact;
  }

  /** An instruction of the arithmetic unit, by the exact result of its operation. */
  lemma Calculates(m: State, i: Instruction, op: Operation, right: Operand, y: Word, n: int)
    requires Ready(m, i) && ActionOf(i.opcode) == Compute(op, right, true) && !op.NoOp?
    requires y == OperandOf(m, i, right) && (Divides(op) ==> y != 0) && n == Exact(op, Left(m, i), y)
    ensures Execute(m, i) == Computes(m, i, n % 0x1_0000_0000, IsSigned(op) && !Representable(n), Carries(op, n),
                                      IsSigned(op))
  {
    hide Satisfied, Execute, Steady, ResultOf, FlagsOf, ActionOf, Exact, Representable, Carries;
    FlagsSay(op, Left(m, i), y, n);
    ComputeActs(m, i, op, right, y);
  }

  /** Sums modulo 2^32, with the carry. */
  lemma Adds(m: State, i: Instruction)
    requires Ready(m, i) && (i.opcode == 8 || i.opcode == 13)
    ensures var n: int := Left(m, i) + Right(m, i, i.opcode == 13);
            Execute(m, i) == Computes(m, i, n % 0x1_0000_0000, false, n >= 0x1_0000_0000, false)
  {
    hide Satisfied, Execute, Steady;
    var y := Right(m, i, i.opcode == 13);
    Calculates(m, i, Add, if i.opcode == 13 then Immediate else Register2, y, Left(m, i) + y);
  }

  /** Differences modulo 2^32; carry means that nothing was borrowed. */
  lemma Subtracts(m: State, i: Instruction)
    requires Ready(m, i) && (i.opcode == 9 || i.opcode == 14)
    ensures var n: int := Left(m, i) - Right(m, i, i.opcode == 14);
            Execute(m, i) == Computes(m, i, n % 0x1_0000_0000, false, n >= 0, false)
  {
    hide Satisfied, Execute, Steady;
    var y := Right(m, i, i.opcode == 14);
    Calculates(m, i, Sub, if i.opcode == 14 then Immediate else Register2, y, Left(m, i) - y);
  }

  /** Products modulo 2^32; carry means that the product needs more bits. */
  lemma Multiplies(m: State, i: Instruction)
    requires Ready(m, i) && (i.opcode == 10 || i.opcode == 15)
    ensures var n: int := Left(m, i) * Right(m, i, i.opcode == 15);
            Execute(m, i) == Computes(m, i, n % 0x1_0000_0000, false, n >= 0x1_0000_0000, false)
  {
    hide Satisfied, Execute, Steady;
    var y := Right(m, i, i.opcode == 15);
    Calculates(m, i, Mul, if i.opcode == 15 then Immediate else Register2, y, Left(m, i) * y);
  }

  /** INC and DEC wrap around, with the carry of an addition and the borrow of a subtraction of 1. */
  lemma Counts(m: State, i: Instruction)
    requires Ready(m, i) && (i.opcode == 32 || i.opcode == 33)
    ensures var n: int := Left(m, i) + if i.opcode == 32 then 1 else -1;
            Execute(m, i) == Computes(m, i, n % 0x1_0000_0000, false,
                                      if i.opcode == 32 then n >= 0x1_0000_0000 else n >= 0, false)
  {
    hide Satisfied, Execute, Steady;
    Calculates(m, i, if i.opcode == 32 then Inc else Dec, Nothing, 0, Left(m, i) + if i.opcode == 32 then 1 else -1);
  }

  /** The unsigned quotient and remainder are the only numbers that make up the dividend again. */
  lemma DividesUnsigned(m: State, i: Instruction, q: Word, r: Word)
    requires Ready(m, i) && (i.opcode == 11 || i.opcode == 12 || i.opcode == 16 || i.opcode == 17)
    requires var y: int := Right(m, i, i.opcode >= 16); q * y + r == Left(m, i) && r < y
    ensures Execute(m, i) == Computes(m, i, if i.opcode == 11 || i.opcode == 16 then q else r, false, false, false)
  {
    hide Satisfied, Execute, Steady;
    var y := Right(m, i, i.opcode >= 16);
    DivModUnique(Left(m, i), y, q, r);
    if i.opcode == 11 || i.opcode == 16 {
      ModSmall(q, 0x1_0000_0000);
      Calculates(m, i, Div, if i.opcode >= 16 then Immediate else Register2, y, q);
    } else {
      ModSmall(r, 0x1_0000_0000);
      Calculates(m, i, Mod, if i.opcode >= 16 then Immediate else Register2, y, r);
    }
  }

  predicate IsDivision(opcode: Byte) {
    opcode == 11 || opcode == 12 || opcode == 16 || opcode == 17 || opcode == 49 || opcode == 50 || opcode == 54
    || opcode == 55
  }

  /** Any division by zero is an error that leaves everything but the status alone. */
  lemma DividesByZero(m: State, i: Instruction)
    requires Ready(m, i) && IsDivision(i.opcode)
    requires Right(m, i, i.opcode == 16 || i.opcode == 17 || i.opcode >= 54) == 0
    ensures Execute(m, i) == m.(status := DivisionByZero)
  {
    hide Satisfied, Execute, Steady;
    var op := if i.opcode == 11 || i.opcode == 16 then Div else if i.opcode == 12 || i.opcode == 17 then Mod
    else if i.opcode == 49 || i.opcode == 54 then SDiv else SMod;
    var immediate := i.opcode == 16 || i.opcode == 17 || i.opcode >= 54;
    ComputeActs(m, i, op, if immediate then Immediate else Register2, 0);
  }

  // ----- signed arithmetic -----

  /** The number a word stands for in two's complement. */
  function Value(w: Word): int { if w < 0x8000_0000 then w else w - 0x1_0000_0000 }

  lemma ExactSigned(x: Word, y: Word)
    ensures Exact(SAdd, x, y) == Value(x) + Value(y)
    ensures Exact(SSub, x, y) == Value(x) - Value(y)
    ensures Exact(SMul, x, y) == Value(x) * Value(y)
  {
  }

  /** ADDS, SUBS and MULS: the exact result modulo 2^32, and V when it is no signed word. */
  lemma SignedArithmetic(m: State, i: Instruction)
    requires Ready(m, i) && (46 <= i.opcode <= 48 || 51 <= i.opcode <= 53)
    ensures var x: int, y: int := Value(Left(m, i)), Value(Right(m, i, i.opcode >= 51));
            var n: int := if i.opcode == 46 || i.opcode == 51 then x + y
                          else if i.opcode == 47 || i.opcode == 52 then x - y else x * y;
            Execute(m, i) == Computes(m, i, n % 0x1_0000_0000, !Representable(n), false, true)
  {
    hide Satisfied, Execute, Steady, Exact, Value;
    var y := Right(m, i, i.opcode >= 51);
    var op := if i.opcode == 46 || i.opcode == 51 then SAdd else if i.opcode == 47 || i.opcode == 52 then SSub
        else SMul;
    ExactSigned(Left(m, i), y);
    Calculates(m, i, op, if i.opcode >= 51 then Immediate else Register2, y, Exact(op, Left(m, i), y));
  }

  /** Division that truncates toward zero: q * d + r is the dividend, and r has its sign and is smaller than d. */
  predicate Truncated(n: int, d: int, q: int, r: int) {
    q * d + r == n && Magnitude(r) < Magnitude(d) && (n >= 0 ==> r >= 0) && (n <= 0 ==> r <= 0)
  }

  lemma TruncatedIsUnique(n: int, d: int, q: int, r: int)
    requires d != 0 && Truncated(n, d, q, r)
    ensures Quotient(n, d) == q && Remainder(n, d) == r
  {
    hide Quotient, Remainder;
    TruncatedDivision(n, d);
    var p, s := Quotient(n, d), Remainder(n, d);
    SameQuotient(d, p, q, s, r);
  }

  lemma SameQuotient(d: int, p: int, q: int, s: int, r: int)
    requires d != 0 && p * d + s == q * d + r && Magnitude(s - r) < Magnitude(d)
    ensures p == q && s == r
  {
    assert (p - q) * d == r - s;
    if d > 0 {
      DistinctMultiples(p - q, d, r - s);
    } else {
      assert (q - p) * -d == r - s;
      DistinctMultiples(q - p, -d, r - s);
    }
  }

  /** DIVS and MODS; only the most negative word by minus one overflows, and wraps to itself. */
  lemma SignedDivision(m: State, i: Instruction, q: int, r: int)
    requires Ready(m, i) && (i.opcode == 49 || i.opcode == 50 || i.opcode == 54 || i.opcode == 55)
    requires Right(m, i, i.opcode >= 54) != 0
    requires Truncated(Value(Left(m, i)), Value(Right(m, i, i.opcode >= 54)), q, r)
    ensures Execute(m, i)
            == if i.opcode == 49 || i.opcode == 54
               then Computes(m, i, q % 0x1_0000_0000, !Representable(q), false, true)
               else Computes(m, i, r % 0x1_0000_0000, false, false, true)
    ensures Representable(q) <==> !(Left(m, i) == 0x8000_0000 && Right(m, i, i.opcode >= 54) == 0xFFFF_FFFF)
  {
    hide Satisfied, Execute, Steady, Exact, Value, Truncated, Representable;
    var x, y := Left(m, i), Right(m, i, i.opcode >= 54);
    ExactDivision(x, y, q, r);
    if i.opcode == 49 || i.opcode == 54 {
      Calculates(m, i, SDiv, if i.opcode >= 54 then Immediate else Register2, y, q);
    } else {
      Calculates(m, i, SMod, if i.opcode >= 54 then Immediate else Register2, y, r);
    }
  }

  lemma ExactDivision(x: Word, y: Word, q: int, r: int)
    requires y != 0 && Truncated(Value(x), Value(y), q, r)
    ensures Exact(SDiv, x, y) == q && Exact(SMod, x, y) == r
    ensures Representable(q) <==> !(x == 0x8000_0000 && y == 0xFFFF_FFFF)
    ensures Representable(r)
  {
    hide Quotient, Remainder, Truncated;
    TruncatedIsUnique(Value(x), Value(y), q, r);
    DivisionOverflow(x, y);
  }

  // ----- logic -----

  /** What a logical instruction does to each bit. */
  predicate Combined(opcode: Byte, a: bool, b: bool) {
    match opcode
    case 21 => !a
    case 22 => a && b
    case 27 => a && b
    case 23 => a || b
    case 28 => a || b
    case 24 => a != b
    case 29 => a != b
    case 25 => !(a && b)
    case 30 => !(a && b)
    case 26 => !(a || b)
    case 31 => !(a || b)
    case _ => false
  }

  lemma {:induction false} BitsDecide(x: nat, y: nat, n: nat)
    requires x < Pow2(n) && y < Pow2(n) && forall k: nat :: k < n ==> (Bit(x, k) <==> Bit(y, k))
    ensures x == y
  {
    if n > 0 {
      assert Bit(x, 0) <==> Bit(y, 0);
      forall k: nat | k < n - 1 ensures Bit(x / 2, k) <==> Bit(y / 2, k) {
        assert Bit(x, k + 1) <==> Bit(y, k + 1);
      }
      BitsDecide(x / 2, y / 2, n - 1);
    }
  }

  function LogicalOperation(opcode: Byte): Operation
    requires 21 <= opcode <= 31
  {
    match opcode
    case 21 => Not
    case 22 => AndOp
    case 27 => AndOp
    case 23 => OrOp
    case 28 => OrOp
    case 24 => XorOp
    case 29 => XorOp
    case 25 => Nand
    case 30 => Nand
    case _ => Nor
  }

  lemma LogicalBit(opcode: Byte, x: Word, y: Word, k: nat)
    requires 21 <= opcode <= 31 && k < 32
    ensures Bit(ResultOf(LogicalOperation(opcode), x, y), k) <==> Combined(opcode, Bit(x, k), Bit(y, k))
  {
    hide Bit, ResultOf;
    LogicalBits(x, y, k);
  }

  /** The result is the word each of whose bits combines the operands' bits; no carry, no overflow. */
  lemma CombinesBits(m: State, i: Instruction, w: Word)
    requires Ready(m, i) && 21 <= i.opcode <= 31
    requires forall k: nat :: k < 32 ==>
               (Bit(w, k) <==> Combined(i.opcode, Bit(Left(m, i), k), Bit(Right(m, i, i.opcode >= 27), k)))
    ensures Execute(m, i) == Computes(m, i, w, false, false, false)
  {
    hide Satisfied, Execute, Steady, ResultOf, Bit, Combined, Pow2, Exact;
    var x, op := Left(m, i), LogicalOperation(i.opcode);
    var y := if i.opcode == 21 then 0 else Right(m, i, i.opcode >= 27);
    forall k: nat | k < 32 ensures Bit(w, k) <==> Bit(ResultOf(op, x, y), k) {
      LogicalBit(i.opcode, x, y, k);
      NotIgnoresRight(i.opcode, Bit(x, k), Bit(y, k), Bit(Right(m, i, i.opcode >= 27), k));
    }
    WordWidths();
    BitsDecide(w, ResultOf(op, x, y), 32);
    Calculates(m, i, op, if i.opcode == 21 then Nothing else if i.opcode >= 27 then Immediate else Register2, y,
               Exact(op, x, y));
    ResultWord(op, x, y);
  }

  lemma ResultWord(op: Operation, x: Word, y: Word)
    requires !Divides(op)
    ensures ResultOf(op, x, y) == Exact(op, x, y) % 0x1_0000_0000
  {
    hide Exact;
  }

  lemma NotIgnoresRight(opcode: Byte, a: bool, b: bool, c: bool)
    requires b != c ==> opcode == 21
    ensures Combined(opcode, a, b) == Combined(opcode, a, c)
  {
  }

  // ----- memory -----

  /** The address of a load or store; it does not wrap. */
  function Address(m: State, i: Instruction): nat
    requires Ready(m, i)
  {
    m.Register(i.register2) + i.immediate
  }

  /** Byte p as a number. */
  function ByteOf(b: seq<Byte>, p: nat): int
    requires p < |b|
  {
    b[p]
  }

  lemma LittleEndian(b: seq<Byte>)
    ensures |b| == 1 ==> FromLE(b) == ByteOf(b, 0)
    ensures |b| == 2 ==> FromLE(b) == ByteOf(b, 0) + 0x100 * ByteOf(b, 1)
    ensures |b| == 4 ==>
            FromLE(b) == ByteOf(b, 0) + 0x100 * ByteOf(b, 1) + 0x1_0000 * ByteOf(b, 2) + 0x100_0000 * ByteOf(b, 3)
  {
    if |b| > 1 {
      assert FromLE(b[1..]) == b[1] + 256 * FromLE(b[1..][1..]);
      if |b| > 2 {
        assert b[1..][1..] == b[2..] && b[2..][1..] == b[3..];
        assert FromLE(b[2..]) == b[2] + 256 * FromLE(b[3..]);
        if |b| == 4 { assert FromLE(b[3..]) == b[3]; }
      }
    }
  }

  lemma LoadActs(m: State, i: Instruction, size: nat)
    requires Ready(m, i) && ActionOf(i.opcode) == LoadFrom(size) && Address(m, i) + size <= |m.Memory()|
    requires size == 1 || size == 2 || size == 4
    ensures var bytes := m.Memory()[Address(m, i)..Address(m, i) + size];
            Execute(m, i) == Set(m, i.register1, Merged(Left(m, i), FromLE(bytes), size))
  {
    hide Satisfied, FromLE, ActionOf, Merged, Settle;
    Acts(m, i);
    var bytes := m.Memory()[Address(m, i)..Address(m, i) + size];
    SettledRegister(m, i.register1, Merged(Left(m, i), FromLE(bytes), size));
  }

  lemma StoreActs(m: State, i: Instruction, size: nat)
    requires Ready(m, i) && ActionOf(i.opcode) == StoreTo(size) && Address(m, i) + size <= |m.Memory()|
    ensures Execute(m, i) == m.WithMemory(Splice(m.Memory(), Address(m, i), LE(Left(m, i), size)))
  {
    hide Satisfied, LE, ActionOf, Settle, Splice;
    Acts(m, i);
    WriteSettled(m, Splice(m.Memory(), Address(m, i), LE(Left(m, i), size)));
  }

  lemma MergedBytes(x: Word, b: seq<Byte>, a: nat, size: nat)
    requires a + size <= |b| && (size == 1 || size == 2 || size == 4)
    ensures var w := Merged(x, FromLE(b[a..a + size]), size);
            && (size == 1 ==> w == x - x % 0x100 + ByteOf(b, a))
            && (size == 2 ==> w == x - x % 0x1_0000 + ByteOf(b, a) + 0x100 * ByteOf(b, a + 1))
            && (size == 4 ==>
                  w == ByteOf(b, a) + 0x100 * ByteOf(b, a + 1) + 0x1_0000 * ByteOf(b, a + 2)
                  + 0x100_0000 * ByteOf(b, a + 3))
  {
    hide FromLE, Merged, ByteOf;
    var bytes := b[a..a + size];
    LittleEndian(bytes);
    SliceByte(b, a, size, 0);
    if size > 1 { SliceByte(b, a, size, 1); }
    if size > 2 {
      SliceByte(b, a, size, 2);
      SliceByte(b, a, size, 3);
    }
    ByteSums(bytes);
    MergedSmall(x, FromLE(bytes), size);
  }

  lemma SliceByte(b: seq<Byte>, a: nat, size: nat, k: nat)
    requires a + size <= |b| && k < size
    ensures ByteOf(b[a..a + size], k) == ByteOf(b, a + k)
  {
  }

  lemma ByteSums(b: seq<Byte>)
    ensures |b| == 1 ==> 0 <= ByteOf(b, 0) < 0x100
    ensures |b| == 2 ==> 0 <= ByteOf(b, 0) + 0x100 * ByteOf(b, 1) < 0x1_0000
    ensures |b| == 4 ==>
            0 <= ByteOf(b, 0) + 0x100 * ByteOf(b, 1) + 0x1_0000 * ByteOf(b, 2) + 0x100_0000 * ByteOf(b, 3)
            < 0x1_0000_0000
  {
  }

  lemma MergedSmall(x: Word, value: nat, size: nat)
    ensures size == 1 && value < 0x100 ==> Merged(x, value, size) == x - x % 0x100 + value
    ensures size == 2 && value < 0x1_0000 ==> Merged(x, value, size) == x - x % 0x1_0000 + value
    ensures size == 4 && value < 0x1_0000_0000 ==> Merged(x, value, size) == value
  {
  }

  /** Loads are little-endian; a byte or half word replaces the low end of the register. */
  lemma Loads(m: State, i: Instruction) returns (w: Word)
    requires Ready(m, i) && (i.opcode == 34 || i.opcode == 36 || i.opcode == 38)
    requires Address(m, i) + (if i.opcode == 34 then 1 else if i.opcode == 36 then 2 else 4) <= |m.Memory()|
    ensures Execute(m, i) == Set(m, i.register1, w)
    ensures var x, b, a := Left(m, i), m.Memory(), Address(m, i);
            && (i.opcode == 34 ==> w == x - x % 0x100 + ByteOf(b, a))
            && (i.opcode == 36 ==> w == x - x % 0x1_0000 + ByteOf(b, a) + 0x100 * ByteOf(b, a + 1))
            && (i.opcode == 38 ==>
                  w == ByteOf(b, a) + 0x100 * ByteOf(b, a + 1) + 0x1_0000 * ByteOf(b, a + 2)
                  + 0x100_0000 * ByteOf(b, a + 3))
  {
    hide Satisfied, Execute, FromLE, Steady, ActionOf, Set, Merged, ByteOf;
    var size := if i.opcode == 34 then 1 else if i.opcode == 36 then 2 else 4;
    var a := Address(m, i);
    MemoryAction(i.opcode);
    LoadActs(m, i, size);
    MergedBytes(Left(m, i), m.Memory(), a, size);
    w := Merged(Left(m, i), FromLE(m.Memory()[a..a + size]), size);
  }

  /** Stores write the low bytes of the register, lowest first, and touch nothing else. */
  lemma Stores(m: State, i: Instruction)
    requires Ready(m, i) && (i.opcode == 35 || i.opcode == 37 || i.opcode == 39)
    requires Address(m, i) + (if i.opcode == 35 then 1 else if i.opcode == 37 then 2 else 4) <= |m.Memory()|
    ensures |Execute(m, i).Memory()| == |m.Memory()| && Execute(m, i) == m.WithMemory(Execute(m, i).Memory())
    ensures Stored(m.Memory(), Execute(m, i).Memory(), Address(m, i), Left(m, i),
                   if i.opcode == 35 then 1 else if i.opcode == 37 then 2 else 4)
  {
    hide Satisfied, Execute, LE, Steady, Splice, ActionOf, Stored;
    var size := if i.opcode == 35 then 1 else if i.opcode == 37 then 2 else 4;
    MemoryAction(i.opcode);
    StoreActs(m, i, size);
    SplicedLow(m.Memory(), Address(m, i), Left(m, i), size);
  }

  /** The low bytes of x are at a, the lowest first, and all other bytes are as before. */
  predicate Stored(before: seq<Byte>, after: seq<Byte>, a: nat, x: Word, size: nat)
    requires a + size <= |before| == |after| && (size == 1 || size == 2 || size == 4)
  {
    && after[a] == x % 0x100
    && (size >= 2 ==> after[a + 1] == x / 0x100 % 0x100)
    && (size == 4 ==> after[a + 2] == x / 0x1_0000 % 0x100 && after[a + 3] == x / 0x100_0000)
    && forall p :: 0 <= p < |before| && !(a <= p < a + size) ==> after[p] == before[p]
  }

  lemma SplicedLow(b: seq<Byte>, a: nat, x: Word, size: nat)
    requires a + size <= |b| && (size == 1 || size == 2 || size == 4)
    ensures |Splice(b, a, LE(x, size))| == |b| && Stored(b, Splice(b, a, LE(x, size)), a, x, size)
  {
    hide LE;
    LowBytes(x, size);
  }

  lemma WriteSettled(m: State, b: seq<Byte>)
    requires Steady(m) && |b| == |m.Memory()|
    ensures Settle(m.WithMemory(b)) == m.WithMemory(b)
  {
    ZeroKept(m.WithMemory(b));
  }

  lemma LowBytes(x: Word, size: nat)
    requires size == 1 || size == 2 || size == 4
    ensures |LE(x, size)| == size && LE(x, size)[0] == x % 0x100
    ensures size >= 2 ==> LE(x, size)[1] == x / 0x100 % 0x100
    ensures size == 4 ==> LE(x, size)[2] == x / 0x1_0000 % 0x100 && LE(x, size)[3] == x / 0x100_0000
  {
    hide LE;
    LowByte(x, size);
    Shifts(x);
    var y := x / 0x100;
    if size > 1 { LowByte(y, size - 1); }
    if size == 4 {
      var z := y / 0x100;
      LowByte(z, 2);
      LowByte(z / 0x100, 1);
    }
  }

  lemma LowByte(x: nat, size: nat)
    requires size > 0
    ensures |LE(x, size)| == size && LE(x, size)[0] == x % 0x100
    ensures forall k :: 1 <= k < size ==> LE(x, size)[k] == LE(x / 0x100, size - 1)[k - 1]
  {
  }

  lemma Shifts(x: Word)
    ensures x / 0x100 / 0x100 == x / 0x1_0000 && x / 0x100 / 0x100 / 0x100 == x / 0x100_0000
    ensures x / 0x100_0000 % 0x100 == x / 0x100_0000
  {
  }

  // ----- comparisons -----

  /** 42 to 45 set the flags of an unsigned or signed difference and write no register. */
  lemma Compares(m: State, i: Instruction)
    requires Ready(m, i) && 42 <= i.opcode <= 45
    ensures var x, y := Left(m, i), Right(m, i, i.opcode == 43 || i.opcode == 45);
            var n: int := if i.opcode <= 43 then x - y else Value(x) - Value(y);
            var w := n % 0x1_0000_0000;
            Execute(m, i) == m.(flags := Flags(w >= 0x8000_0000, w == 0, i.opcode >= 44 && !Representable(n),
                                               i.opcode <= 43 && n >= 0, i.opcode >= 44))
  {
    hide Satisfied, Execute, Steady, Holds, FlagsOf, ResultOf, Representable, Value;
    var x, y := Left(m, i), Right(m, i, i.opcode == 43 || i.opcode == 45);
    HoldsIsSatisfied(m.flags, i.condition);
    CompareInstruction(m, i);
    ExactSigned(x, y);
    var l: int, r: int := x, y;
    if i.opcode <= 43 { FlagsSay(Sub, x, y, l - r); } else { FlagsSay(SSub, x, y, Value(x) - Value(y)); }
  }

  // ----- control -----

  /** Jumps set $pc; a call first keeps it in $lp, and a return takes it from there. */
  lemma Jumps(m: State, i: Instruction)
    requires Ready(m, i)
    ensures i.opcode == 20 ==> Execute(m, i) == m.WithRegister(R_PC, i.immediate)
    ensures i.opcode == 40 ==>
            Execute(m, i) == m.WithRegister(R_LP, m.Register(R_PC)).WithRegister(R_PC, i.immediate)
    ensures i.opcode == 41 ==> Execute(m, i) == m.WithRegister(R_PC, m.Register(R_LP))
  {
    hide Satisfied, Settle, Execute, Push, Pop, Operate, Serve, ReadScalar, WriteScalar, Merged;
    Acts(m, i);
    SettledRegister(m, R_PC, i.immediate);
    SettledRegister(m, R_PC, m.Register(R_LP));
    var linked := m.WithRegister(R_LP, m.Register(R_PC));
    SettledRegister(linked, R_PC, i.immediate);
  }

  lemma BeyondTable(opcode: Byte)
    requires opcode >= 56
    ensures ActionOf(opcode) == Illegal
  {
  }

  /** NOP and SYSCALL do nothing; opcodes from 56 on are errors. */
  lemma DoesNothing(m: State, i: Instruction)
    requires Ready(m, i) && (i.opcode == 0 || i.opcode == 19 || i.opcode >= 56)
    ensures Execute(m, i) == if i.opcode >= 56 then m.(status := InvalidOpcode) else m
  {
    hide Satisfied, Settle, Execute, Push, Pop, Operate, Serve, ReadScalar, WriteScalar, Merged;
    Acts(m, i);
    ZeroKept(m);
    ZeroKept(m.(status := InvalidOpcode));
    if i.opcode >= 56 { BeyondTable(i.opcode); }
  }

  lemma InterruptActs(m: State, i: Instruction)
    requires Ready(m, i) && i.opcode == 18
    ensures Execute(m, i) == Settle(Serve(m, i.immediate))
  {
    hide Satisfied, Settle, Execute, Push, Pop, Operate, Serve, ReadScalar, WriteScalar, Merged;
    Acts(m, i);
  }

  /** The services: 1 and 2 write a character, 16 reads one or gives the end of input as -1, 255 halts. */
  lemma Interrupts(m: State, i: Instruction)
    requires Ready(m, i) && i.opcode == 18
    ensures i.immediate == 1 ==> Execute(m, i) == m.(output := m.output + [(m.Register(R_A0) + 0x60) % 0x100])
    ensures i.immediate == 2 ==> Execute(m, i) == m.(output := m.output + [m.Register(R_A0) % 0x100])
    ensures i.immediate == 16 && m.input == [] ==> Execute(m, i) == m.WithRegister(R_V0, 0xFFFF_FFFF)
    ensures i.immediate == 16 && m.input != [] ==>
            Execute(m, i) == m.WithRegister(R_V0, m.input[0]).(input := m.input[1..])
    ensures i.immediate == 255 ==> Execute(m, i) == m.(status := Halted)
    ensures i.immediate !in {1, 2, 16, 255} ==> Execute(m, i) == m
  {
    hide Satisfied, Settle, Execute;
    InterruptActs(m, i);
    ZeroKept(m.(status := Halted));
    ZeroKept(m);
    ZeroKept(m.(output := m.output + [m.Register(R_A0) % 0x100]));
    ZeroKept(m.(output := m.output + [(m.Register(R_A0) + 0x60) % 0x100]));
    SettledRegister(m, R_V0, 0xFFFF_FFFF);
    if m.input != [] { SettledRegister(m.(input := m.input[1..]), R_V0, m.input[0]); }
  }

  // ----- stack -----

  /** The stack pointers are whole words apart and delimit between `least` and `most` bytes. */
  predicate InUse(m: State, least: nat, most: nat)
    requires m.Valid()
  {
    var used: int := m.Register(R_SP) - m.Register(R_BP);
    least <= used <= most && used % 4 == 0
  }

  /** A word is written at $sp, which moves behind it; nothing else changes. */
  predicate Pushed(m: State, value: Word, after: State)
    requires m.Valid() && m.Register(R_SP) + 4 <= |m.Memory()|
  {
    && |after.Memory()| == |m.Memory()| && Stored(m.Memory(), after.Memory(), m.Register(R_SP), value, 4)
    && after == m.WithMemory(after.Memory()).WithRegister(R_SP, (m.Register(R_SP) + 4) % 0x1_0000_0000)
  }

  lemma PushDone(m: State, value: Word)
    requires Steady(m) && m.status.Normal?
    ensures var after := Settle(Push(m, value).state);
            if !InUse(m, 0, 252) then after == m.(status := StackOverflow)
            else if m.Register(R_SP) + 4 > |m.Memory()| then after == m.(status := OutOfMemory)
            else Pushed(m, value, after)
  {
    hide Settle, LE, Stored, Splice, Push;
    ZeroKept(m.(status := StackOverflow));
    ZeroKept(m.(status := OutOfMemory));
    PushRefused(m, value);
    if InUse(m, 0, 252) && m.Register(R_SP) + 4 <= |m.Memory()| {
      PushWrites(m, value);
      var b := Splice(m.Memory(), m.Register(R_SP), LE(value, 4));
      SplicedLow(m.Memory(), m.Register(R_SP), value, 4);
      SettledRegister(m.WithMemory(b), R_SP, Wrap(m.Register(R_SP) + 4));
    }
  }

  lemma PushRefused(m: State, value: Word)
    requires m.Valid() && m.status.Normal?
    ensures CanPush(m.Register(R_SP), m.Register(R_BP)) <==> InUse(m, 0, 252)
    ensures m.InRange(m.Register(R_SP), 4) <==> m.Register(R_SP) + 4 <= |m.Memory()|
    ensures !InUse(m, 0, 252) ==> Push(m, value).state == m.(status := StackOverflow)
    ensures InUse(m, 0, 252) && m.Register(R_SP) + 4 > |m.Memory()| ==>
              Push(m, value).state == m.(status := OutOfMemory)
  {
    hide LE, Splice;
  }

  /** A push writes its word behind the stack, or says why it cannot. */
  lemma Pushes(m: State, i: Instruction)
    requires Ready(m, i) && (i.opcode == 3 || i.opcode == 4)
    ensures if !InUse(m, 0, 252) then Execute(m, i) == m.(status := StackOverflow)
            else if m.Register(R_SP) + 4 > |m.Memory()| then Execute(m, i) == m.(status := OutOfMemory)
            else Pushed(m, if i.opcode == 3 then Left(m, i) else i.immediate, Execute(m, i))
  {
    hide Satisfied, Settle, Execute, Push, Pop, Operate, Serve, ReadScalar, WriteScalar, Merged, Pushed, InUse;
    Acts(m, i);
    PushDone(m, if i.opcode == 3 then Left(m, i) else i.immediate);
  }

  /** The word below $sp. */
  predicate Top(m: State, w: Word)
    requires m.Valid()
  {
    var sp: int := m.Register(R_SP);
    && 4 <= sp <= |m.Memory()|
    && w == ByteOf(m.Memory(), sp - 4) + 0x100 * ByteOf(m.Memory(), sp - 3)
            + 0x1_0000 * ByteOf(m.Memory(), sp - 2) + 0x100_0000 * ByteOf(m.Memory(), sp - 1)
  }

  /** What a pop gives and where it leaves $sp, or why it fails. */
  lemma PopDone(m: State) returns (w: Word)
    requires Steady(m) && m.status.Normal?
    ensures !InUse(m, 4, 256) ==> Pop(m) == Popped(m.(status := StackUnderflow), false, 0)
    ensures InUse(m, 4, 256) && m.Register(R_SP) > |m.Memory()| ==>
              Pop(m) == Popped(m.(status := OutOfMemory), false, 0)
    ensures InUse(m, 4, 256) && m.Register(R_SP) <= |m.Memory()| ==>
              && Top(m, w) && m.Register(R_SP) >= 4
              && Pop(m) == Popped(m.WithRegister(R_SP, m.Register(R_SP) - 4), true, w)
  {
    hide FromLE;
    w := 0;
    if InUse(m, 4, 256) && m.Register(R_SP) <= |m.Memory()| {
      var sp: nat := m.Register(R_SP);
      var bytes := m.Memory()[sp - 4..sp];
      FromLEWord(bytes);
      LittleEndian(bytes);
      w := FromLE(bytes);
      WrapWord(w);
    }
  }

  /** POP drops the top word and POPR puts it into a register; neither touches memory. */
  lemma Pops(m: State, i: Instruction) returns (w: Word)
    requires Ready(m, i) && (i.opcode == 1 || i.opcode == 2)
    ensures if !InUse(m, 4, 256) then Execute(m, i) == m.(status := StackUnderflow)
            else if m.Register(R_SP) > |m.Memory()| then Execute(m, i) == m.(status := OutOfMemory)
            else
              && Top(m, w) && m.Register(R_SP) >= 4
              && var dropped := m.WithRegister(R_SP, m.Register(R_SP) - 4);
                 Execute(m, i) == if i.opcode == 1 then dropped else Set(dropped, i.register1, w)
  {
    hide Satisfied, Settle, Execute, Push, Pop, Operate, Serve, ReadScalar, WriteScalar, Merged, InUse, Top;
    Acts(m, i);
    w := PopDone(m);
    ZeroKept(m.(status := StackUnderflow));
    ZeroKept(m.(status := OutOfMemory));
    if InUse(m, 4, 256) && m.Register(R_SP) <= |m.Memory()| {
      var dropped := m.WithRegister(R_SP, m.Register(R_SP) - 4);
      ZeroKept(dropped);
      SettledRegister(dropped, i.register1, w);
    }
  }

  /** DUP pushes the top word once more, or fails as a whole. */
  lemma Duplicates(m: State, i: Instruction) returns (w: Word)
    requires Ready(m, i) && i.opcode == 5
    ensures if !InUse(m, 4, 256) then Execute(m, i) == m.(status := StackUnderflow)
            else if m.Register(R_SP) > |m.Memory()| then Execute(m, i) == m.(status := OutOfMemory)
            else if !InUse(m, 0, 252) then Execute(m, i) == m.(status := StackOverflow)
            else if m.Register(R_SP) + 4 > |m.Memory()| then Execute(m, i) == m.(status := OutOfMemory)
            else Top(m, w) && Pushed(m, w, Execute(m, i))
  {
    hide Satisfied, Settle, Execute, Push, Pop, Operate, Serve, ReadScalar, WriteScalar, Merged, InUse, Top, Pushed;
    Acts(m, i);
    w := PopDone(m);
    ZeroKept(m.(status := StackUnderflow));
    ZeroKept(m.(status := OutOfMemory));
    if InUse(m, 4, 256) && m.Register(R_SP) <= |m.Memory()| {
      PushUndoesPop(m);
      PushDone(m, w);
    }
  }

  // ----- laws that join opcodes -----

  /** Two steps of a pair of opposite additions: the register is restored unless it was its own operand. */
  lemma SubtractionUndoesAddition(m: State, i: Instruction, j: Instruction)
    requires Ready(m, i) && (i.opcode == 8 || i.opcode == 13)
    requires j.opcode == i.opcode + 1 && j.register1 == i.register1 && j.register2 == i.register2
             && j.immediate == i.immediate
    requires Ready(Execute(m, i), j)
    ensures Execute(Execute(m, i), j) == m.(flags := Execute(Execute(m, i), j).flags)
            <==> i.opcode == 13 || i.register1 != i.register2 || m.Register(i.register1) == 0
  {
    hide Satisfied, Execute;
    var r := i.register1;
    var x: int, y: int := Left(m, i), Right(m, i, i.opcode == 13);
    Adds(m, i);
    var after := Execute(m, i);
    Subtracts(after, j);
    SumRestored(x, y);
    if r != 0 {
      assert after.registers == m.registers[r := (x + y) % 0x1_0000_0000];
      if i.opcode == 13 || r != i.register2 {
        assert Right(after, j, i.opcode == 13) == y;
        assert m.registers[r := (x + y) % 0x1_0000_0000][r := x] == m.registers;
      } else {
        assert Execute(after, j).Register(r) == 0;
        assert x == 0 ==> m.registers[r := 0] == m.registers;
      }
    }
  }

  lemma SumRestored(x: int, y: int)
    requires 0 <= x < 0x1_0000_0000
    ensures ((x + y) % 0x1_0000_0000 - y) % 0x1_0000_0000 == x
  {
  }

  /** Whatever a called routine does, its RET resumes behind the JMPAL if it leaves $lp as the call set it. */
  lemma ReturnResumes(m: State, n: nat)
    requires Steady(m) && m.status.Normal? && Fetch(m).instruction.Some?
             && Ready(Fetch(m).state, Fetch(m).instruction.value) && Fetch(m).instruction.value.opcode == 40
    requires var back := Steps(m, n + 1);
             && back.Register(R_LP) == Steps(m, 1).Register(R_LP) && back.status.Normal?
             && Fetch(back).instruction.Some? && Fetch(back).instruction.value.opcode == 41
             && Ready(Fetch(back).state, Fetch(back).instruction.value)
    ensures Steps(m, 1).Register(R_PC) == Fetch(m).instruction.value.immediate
    ensures Steps(m, n + 2).Register(R_PC) == (m.Register(R_PC) + 8) % 0x1_0000_0000
    ensures Steps(m, n + 2) == Steps(m, n + 1).WithRegister(R_PC, (m.Register(R_PC) + 8) % 0x1_0000_0000)
  {
    hide Satisfied, Execute, Decoded;
    var back := Steps(m, n + 1);
    assert Steps(m, 1) == Step(Steps(m, 0));
    Jumps(Fetch(m).state, Fetch(m).instruction.value);
    Jumps(Fetch(back).state, Fetch(back).instruction.value);
    assert Steps(m, n + 2) == Step(back);
  }
}
