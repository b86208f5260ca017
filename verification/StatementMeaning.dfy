/**
  What a statement is assembled to, field by field: which register each name denotes,
  which operands each opcode takes, and that these are the ones the machine reads.
 */
module StatementMeaning {
  import opened Wrappers
  import opened Bytes
  import opened Diagnostics
  import opened ImageFormat
  import opened Numbers
  import opened Layout
  import opened Statements
  import opened RawAssembly
  import opened ObjectAssembly
  import opened Toolchain
  import Instructions
  import LinkProofs
  import Machine

  // ----- registers -----

  /** The name of a register besides r and its number. */
  function Alias(r: nat): CString
    requires r < 32
  {
    if r == 0 then [122, 101, 114, 111]  // zero
    else if r == 1 then [97, 116]  // at
    else if r <= 5 then [118, 46 + r]  // v0 to v3
    else if r <= 9 then [97, 42 + r]  // a0 to a3
    else if r <= 17 then [116, 38 + r]  // t0 to t7
    else if r <= 25 then [115, 30 + r]  // s0 to s7
    else if r == 26 then [107, 48]  // k0
    else if r == 27 then [115, 99]  // sc
    else if r == 28 then [108, 112]  // lp
    else if r == 29 then [115, 112]  // sp
    else if r == 30 then [98, 112]  // bp
    else [112, 99]  // pc
  }

  lemma NamesAreAliases(r: nat)
    requires r < 32
    ensures REGISTER_NAMES[r] == Alias(r)
  {
  }

  lemma AliasesDiffer(j: nat, k: nat)
    requires j < k < 32
    ensures Alias(j) != Alias(k)
  {
    if j > 0 {
      assert |Alias(j)| == 2 && |Alias(k)| == 2;
      assert Alias(j)[0] != Alias(k)[0] || Alias(j)[1] != Alias(k)[1];
    } else {
      assert |Alias(0)| == 4 && |Alias(k)| == 2;
    }
  }

  lemma AliasStarts(r: nat)
    requires r < 32
    ensures Alias(r) != [] && Alias(r)[0] != R
  {
  }

  /** r and a number in decimal digits. */
  predicate IsNumbered(name: CString, r: nat) {
    |name| > 1 && name[0] == 114 && AllDigits(name[1..], 10) && LiteralValue(name[1..], 10) == r
  }

  /** A name denotes a register exactly when it is the register's alias or r and its number. */
  lemma RegisterIs(name: CString, r: Byte)
    ensures RegisterIndex(name) == Some(r) <==> r < 32 && (name == Alias(r) || IsNumbered(name, r))
  {
    hide Alias, LiteralValue, NameIndex;
    if name != [] && name[0] == R {
      if r < 32 { AliasStarts(r); }
    } else {
      var index := NameIndex(REGISTER_NAMES, name);
      if index < 32 { NamesAreAliases(index); }
      if r < 32 && name == Alias(r) {
        NamesAreAliases(r);
        forall j | 0 <= j < r ensures REGISTER_NAMES[j] != REGISTER_NAMES[r] {
          NamesAreAliases(j);
          AliasesDiffer(j, r);
        }
        NameAt(REGISTER_NAMES, r);
      }
    }
  }

  /** The stack, link and other special registers have the numbers by which the machine knows them. */
  lemma SpecialRegisters()
    ensures RegisterIndex([122, 101, 114, 111]) == Some(Instructions.R_ZERO)
    ensures RegisterIndex([118, 48]) == Some(Instructions.R_V0) && RegisterIndex([97, 48]) == Some(Instructions.R_A0)
    ensures RegisterIndex([108, 112]) == Some(Instructions.R_LP) && RegisterIndex([115, 112]) == Some(Instructions.R_SP)
    ensures RegisterIndex([98, 112]) == Some(Instructions.R_BP) && RegisterIndex([112, 99]) == Some(Instructions.R_PC)
  {
    hide RegisterIndex;
    RegisterIs(Alias(0), 0);
    RegisterIs(Alias(2), 2);
    RegisterIs(Alias(6), 6);
    RegisterIs(Alias(28), 28);
    RegisterIs(Alias(29), 29);
    RegisterIs(Alias(30), 30);
    RegisterIs(Alias(31), 31);
  }

  // ----- operands -----

  /** How many registers an action of the machine reads or writes, and whether it uses the immediate. */
  function Needs(action: Instructions.Action): Arity {
    match action
    case PopRegister => Arity(1, Some(false))
    case PushRegister => Arity(1, Some(false))
    case PushImmediate => Arity(0, Some(true))
    case MoveRegister => Arity(2, Some(false))
    case MoveImmediate => Arity(1, Some(true))
    case Compute(_, right, _) =>
      if right.Register2? then Arity(2, Some(false))
      else if right.Immediate? then Arity(1, Some(true)) else Arity(1, Some(false))
    case LoadFrom(_) => Arity(2, None)
    case StoreTo(_) => Arity(2, None)
    case Interrupt => Arity(0, Some(true))
    case Jump => Arity(0, Some(true))
    case JumpAndLink => Arity(0, Some(true))
    case _ => Arity(0, Some(false))
  }

  /** The assembler asks for exactly the operands the machine uses; only the offset of loads and stores is optional. */
  lemma OperandsAreUsed(opcode: Byte)
    requires opcode < 56
    ensures ArityOf(opcode) == Needs(Instructions.ActionOf(opcode))
  {
  }

  // ----- fields -----

  /** The register field a statement's register name gives; no name gives register 0. */
  predicate GivesRegister(name: Option<CString>, r: Byte) {
    if name.None? then r == 0 else r < 32 && (name.value == Alias(r) || IsNumbered(name.value, r))
  }

  /** The statement has as many registers as its instruction, and an operand when it must or may have one. */
  predicate OperandsFit(s: Statement)
    requires s.opcode.Some?
  {
    var arity := Needs(Instructions.ActionOf(s.opcode.value));
    && arity.registers == (if s.register1.Some? then 1 else 0) + (if s.register2.Some? then 1 else 0)
    && (arity.operand == Some(true) ==> s.operand.Some?) && (arity.operand == Some(false) ==> s.operand.None?)
  }

  /** The fields of an instruction that its statement fixes, all but the immediate. */
  predicate Arranged(s: Statement, i: Instructions.Instruction) {
    && s.opcode == Some(i.opcode) && OperandsFit(s)
    && i.condition == (if s.condition.Some? then s.condition.value else 0)
    && GivesRegister(s.register1, i.register1) && GivesRegister(s.register2, i.register2)
  }

  /** The immediate: a number as it is, a character as a signed byte, a label as its address, and 0 for none. */
  predicate GivesWord(operand: Option<Operand>, labels: LabelMap, w: Word) {
    if operand.None? then w == 0
    else
      match operand.value
      case NumberOperand(value) => w == value
      case CharOperand(code) => w == (if code < 128 then code else 0x1_0000_0000 - 0x100 + code)
      case LabelUse(name) => name in labels && labels[name] == w
  }

  lemma RegisterGiven(name: Option<CString>, r: Byte)
    ensures RegisterOf(name) == Ok(r) <==> GivesRegister(name, r)
  {
    hide RegisterIndex, Alias, IsNumbered;
    if name.Some? { RegisterIs(name.value, r); }
  }

  lemma OperandsChecked(s: Statement)
    requires s.Valid() && s.opcode.Some?
    ensures OperandError(s).None? <==> OperandsFit(s)
  {
    hide ArityOf, Needs, Instructions.ActionOf;
    OperandsAreUsed(s.opcode.value);
  }

  /** A statement is assembled to an instruction exactly when each field is what the statement says. */
  lemma StatementFields(s: Statement, labels: LabelMap, i: Instructions.Instruction)
    requires s.Valid()
    ensures InstructionOf(s, labels) == Ok(i) <==> Arranged(s, i) && GivesWord(s.operand, labels, i.immediate)
  {
    hide OperandError, OperandsFit, RegisterOf, GivesRegister;
    RegisterGiven(s.register1, i.register1);
    RegisterGiven(s.register2, i.register2);
    OpcodeKnown(s);
    if s.opcode.Some? { OperandsChecked(s); }
  }

  lemma OpcodeKnown(s: Statement)
    ensures OperandError(s).None? ==> s.opcode.Some?
  {
  }

  /** In object mode too; only the immediate may be left to a relocation. */
  lemma TranslatedFields(c: Context, symbols: seq<Symbol>, line: Line)
    requires line.emission.Instruct? && line.emission.statement.Valid() && TranslateLine(c, symbols, line).Ok?
    ensures |TranslateLine(c, symbols, line).value.bytes| == 8
    ensures Arranged(line.emission.statement, Instructions.Decoded(TranslateLine(c, symbols, line).value.bytes))
  {
    hide OperandError, OperandsFit, RegisterOf, GivesRegister, OperandIn, Instructions.Encoded, Instructions.Decoded;
    var s := line.emission.statement;
    OpcodeKnown(s);
    var i := Instructions.Instruction(s.opcode.value, if s.condition.Some? then s.condition.value else 0,
                                      RegisterOf(s.register1).value, RegisterOf(s.register2).value,
                                      OperandIn(c, symbols, line, s.operand).value.word);
    Instructions.DecodedEncoded(i);
    RegisterGiven(s.register1, i.register1);
    RegisterGiven(s.register2, i.register2);
    OperandsChecked(s);
  }

  /** So a fetched statement of a linked program has the opcode, condition and registers that were written. */
  lemma LinkedFields(run: LinkProofs.LinkRun, o: nat, part: Part, i: nat, s: nat,
                     fetched: Option<Instructions.Instruction>)
    requires i < |part.c.lines| && part.c.lines[i].emission.Instruct? && part.c.lines[i].emission.statement.Valid()
    requires IsStatement(run, o, part, i, s, fetched)
    ensures fetched.Some? && Arranged(part.c.lines[i].emission.statement, fetched.value)
  {
    hide TranslateLine, SymbolAt, OperandsFit, GivesRegister, Instructions.Decoded;
    TranslatedFields(part.c, part.symbols, part.c.lines[i]);
  }
}
