/** Register names and operand checks of a statement. */
module Statements {
  import opened Wrappers
  import opened Bytes
  import opened Diagnostics
  import opened Numbers
  import opened Layout

  const R: Char8 := 114

  /** Register names by number; each may also be written as r and its number. */
  const REGISTER_NAMES: seq<CString> := [
    [122, 101, 114, 111], [97, 116], [118, 48], [118, 49],  // zero at v0 v1
    [118, 50], [118, 51], [97, 48], [97, 49],  // v2 v3 a0 a1
    [97, 50], [97, 51], [116, 48], [116, 49],  // a2 a3 t0 t1
    [116, 50], [116, 51], [116, 52], [116, 53],  // t2 t3 t4 t5
    [116, 54], [116, 55], [115, 48], [115, 49],  // t6 t7 s0 s1
    [115, 50], [115, 51], [115, 52], [115, 53],  // s2 s3 s4 s5
    [115, 54], [115, 55], [107, 48], [115, 99],  // s6 s7 k0 sc
    [108, 112], [115, 112], [98, 112], [112, 99]  // lp sp bp pc
  ]

  function NameIndex(names: seq<CString>, name: CString): (n: nat)
    ensures n <= |names|
    ensures n < |names| ==> names[n] == name
    ensures forall k :: 0 <= k < n ==> names[k] != name
  {
    if names == [] || names[0] == name then 0 else 1 + NameIndex(names[1..], name)
  }

  /** The register a name denotes. */
  function RegisterIndex(name: CString): (r: Option<Byte>)
    ensures r.Some? ==> r.value < 32
  {
    if name != [] && name[0] == R then
      if |name| > 1 && AllDigits(name[1..], 10) && LiteralValue(name[1..], 10) < 32
          then Some(LiteralValue(name[1..], 10)) else None
    else
      var index := NameIndex(REGISTER_NAMES, name);
      if index < 32 then Some(index) else None
  }

  /** r and a number: the guard on the running value keeps it below the number of registers. */
  method ParseNumber(name: CString) returns (r: Option<Byte>)
    requires |name| > 0 && name[0] == R
    ensures r == RegisterIndex(name)
  {
    hide LiteralValue, NameIndex, Appended;
    if |name| == 1 {
      return None;
    }
    ghost var digits := name[1..];
    var index: nat := 0;
    EmptyValue();
    for k := 1 to |name|
      invariant forall j :: 0 <= j < k - 1 ==> IsDigitForBase(digits[j], 10)
      invariant index == LiteralValue(digits[..k - 1], 10) < 32
    {
      assert name[k] == digits[k - 1];
      if name[k] < 48 || name[k] > 57 {
        assert !IsDigitForBase(digits[k - 1], 10);
        return None;
      }
      var code: int := name[k];
      var digit := code - 48;
      NextDigit(digits, k - 1);
      PrefixIsSmaller(digits, 10, k);
      if index > 31 / 10 || index * 10 + digit >= 32 {
        return None;
      }
      index := index * 10 + digit;
    }
    assert digits[..|name| - 1] == digits;
    r := Some(index);
  }

  /** parse_register. */
  method ParseRegister(name: CString) returns (r: Result<Byte, Diagnostic>)
    ensures r == if RegisterIndex(name).Some? then Ok(RegisterIndex(name).value) else Err(UnknownRegister)
  {
    hide LiteralValue, NameIndex;
    if |name| > 0 && name[0] == R {
      var index := ParseNumber(name);
      return if index.Some? then Ok(index.value) else Err(UnknownRegister);
    }
    for k := 0 to 32
      invariant forall j :: 0 <= j < k ==> REGISTER_NAMES[j] != name
    {
      if REGISTER_NAMES[k] == name {
        NameAt(REGISTER_NAMES, k);
        return Ok(k);
      }
    }
    r := Err(UnknownRegister);
  }

  lemma EmptyValue()
    ensures LiteralValue([], 10) == 0
  {
  }

  lemma NextDigit(digits: seq<Byte>, k: nat)
    requires k < |digits| && 48 <= digits[k] <= 57
    ensures LiteralValue(digits[..k + 1], 10) == LiteralValue(digits[..k], 10) * 10 + (digits[k] - 48)
  {
    assert digits[..k + 1][..k] == digits[..k];
  }

  lemma NameAt(names: seq<CString>, k: nat)
    requires k < |names| && forall j :: 0 <= j < k ==> names[j] != names[k]
    ensures NameIndex(names, names[k]) == k
  {
  }

  /** Each register has its number as a name, with or without leading zeros, and no other number is one. */
  lemma NumberedRegister(k: nat, zeros: CString, name: CString)
    requires (forall i :: 0 <= i < |zeros| ==> zeros[i] == 48) && name == [R] + zeros + Numeral(k, 10)
    ensures RegisterIndex(name) == if k < 32 then Some(k) else None
  {
    hide Numeral, LiteralValue;
    NumeralValue(k, 10);
    LeadingZeros(zeros, Numeral(k, 10));
    assert name[1..] == zeros + Numeral(k, 10);
  }

  lemma {:induction false} LeadingZeros(zeros: seq<Byte>, digits: seq<Byte>)
    requires (forall i :: 0 <= i < |zeros| ==> zeros[i] == 48) && AllDigits(digits, 10)
    ensures AllDigits(zeros + digits, 10) && LiteralValue(zeros + digits, 10) == LiteralValue(digits, 10)
  {
    var s := zeros + digits;
    if digits != [] {
      LeadingZeros(zeros, digits[..|digits| - 1]);
      assert s[..|s| - 1] == zeros + digits[..|digits| - 1];
    } else if zeros != [] {
      LeadingZeros(zeros[..|zeros| - 1], []);
      assert s[..|s| - 1] == zeros[..|zeros| - 1] + [];
    }
  }

  // ----- operands -----

  datatype Arity = Arity(registers: nat, operand: Option<bool>)

  /** How many registers an opcode takes and whether it takes an operand; None leaves the operand optional. */
  function ArityOf(opcode: Byte): Arity {
    match opcode
    case 0 => Arity(0, Some(false))
    case 1 => Arity(0, Some(false))
    case 5 => Arity(0, Some(false))
    case 19 => Arity(0, Some(false))
    case 41 => Arity(0, Some(false))
    case 2 => Arity(1, Some(false))
    case 3 => Arity(1, Some(false))
    case 21 => Arity(1, Some(false))
    case 32 => Arity(1, Some(false))
    case 33 => Arity(1, Some(false))
    case 4 => Arity(0, Some(true))
    case 18 => Arity(0, Some(true))
    case 20 => Arity(0, Some(true))
    case 40 => Arity(0, Some(true))
    case _ =>
      if opcode == 7 || 13 <= opcode <= 17 || 27 <= opcode <= 31 || opcode == 43 || opcode == 45
          || 51 <= opcode <= 55 then
        Arity(1, Some(true))
      else if 34 <= opcode <= 39 then Arity(2, None)
      else Arity(2, Some(false))
  }

  /** validate_operands. */
  function OperandError(s: Statement): Option<Diagnostic> {
    var registers := if s.register1.Some? then (if s.register2.Some? then 2 else 1) else 0;
    if s.opcode.None? then Some(UnknownOpcode)
    else
      var arity := ArityOf(s.opcode.value);
      if registers != arity.registers || (arity.operand.Some? && s.operand.Some? != arity.operand.value)
          then Some(InvalidOperands)
      else None
  }

  /** A missing register is $zero. */
  function RegisterOf(name: Option<CString>): Result<Byte, Diagnostic> {
    if name.None? then Ok(0)
    else if RegisterIndex(name.value).Some? then Ok(RegisterIndex(name.value).value)
    else Err(UnknownRegister)
  }

  /** A character operand is converted from a signed char. */
  function CharWord(code: Byte): Word {
    if code < 0x80 then code else 0xFFFF_FF00 + code
  }
}
