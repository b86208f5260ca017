/**
  The arithmetic unit. Its results are specified by one exact integer per
  operation: the stored word is that integer modulo 2^32, and the carry and
  overflow flags say how the integer and the word differ.
 */
module Alu {
  import opened Bits
  import opened Bytes
  import opened ImageFormat

  datatype Operation =
    | NoOp | Id
    | Add | Sub | Mul | Div | Mod
    | Not | AndOp | OrOp | XorOp | Nand | Nor
    | Inc | Dec
    | SAdd | SSub | SMul | SDiv | SMod

  datatype Flags = Flags(n: bool, z: bool, v: bool, c: bool, s: bool)

  const CLEAR := Flags(false, false, false, false, false)

  predicate IsSigned(op: Operation) {
    op.SAdd? || op.SSub? || op.SMul? || op.SDiv? || op.SMod?
  }

  predicate Divides(op: Operation) {
    op.Div? || op.Mod? || op.SDiv? || op.SMod?
  }

  /** C division and remainder on signed integers truncate toward zero. */
  function Quotient(n: int, d: int): int
    requires d != 0
  {
    if n >= 0 then (if d > 0 then n / d else -(n / -d)) else (if d > 0 then -(-n / d) else -n / -d)
  }

  function Remainder(n: int, d: int): int
    requires d != 0
  {
    n - Quotient(n, d) * d
  }

  function SignedSum(left: Word, right: Word): int { var l: int, r: int := Signed(left), Signed(right); l + r }
  function SignedDifference(left: Word, right: Word): int { var l: int, r: int := Signed(left), Signed(right); l - r }
  function SignedProduct(left: Word, right: Word): int { var l: int, r: int := Signed(left), Signed(right); l * r }

  /** The unbounded integer an operation stands for. */
  function Exact(op: Operation, left: Word, right: Word): int
    requires Divides(op) ==> right != 0
  {
    match op
    case NoOp => 0
    case Id => left
    case Add => left + right
    case Sub => left - right
    case Mul => left * right
    case Div => left / right
    case Mod => left % right
    case Not => -1 - left
    case AndOp => And(left, right)
    case OrOp => Or(left, right)
    case XorOp => Xor(left, right)
    case Nand => -1 - And(left, right)
    case Nor => -1 - Or(left, right)
    case Inc => left + 1
    case Dec => left - 1
    case SAdd => SignedSum(left, right)
    case SSub => SignedDifference(left, right)
    case SMul => SignedProduct(left, right)
    case SDiv => Quotient(Signed(left), Signed(right))
    case SMod => Remainder(Signed(left), Signed(right))
  }

  /** Conversion to a 32-bit word. */
  function Wrap(x: int): Word {
    x % 0x1_0000_0000
  }

  lemma WrapWord(x: Word)
    ensures Wrap(x) == x && Wrap(-1 - x) == WORD_MAX - x
  {
  }

  function ResultOf(op: Operation, left: Word, right: Word): Word
    requires Divides(op) ==> right != 0
  {
    Wrap(Exact(op, left, right))
  }

  predicate FitsSigned(x: int) { -0x8000_0000 <= x < 0x8000_0000 }

  /** C is carry-out for sums and products and no-borrow for differences; V is signed overflow. */
  function FlagsOf(op: Operation, left: Word, right: Word): Flags
    requires Divides(op) ==> right != 0
  {
    var exact, result := Exact(op, left, right), ResultOf(op, left, right);
    Flags(Signed(result) < 0, result == 0,
          IsSigned(op) && !FitsSigned(exact),
          if op.Add? || op.Mul? || op.Inc? then exact >= WORD_RANGE
          else if op.Sub? || op.Dec? then exact >= 0
          else false,
          IsSigned(op))
  }

  /** Truncating division: the remainder takes the dividend's sign and is smaller than the divisor. */
  lemma TruncatedDivision(n: int, d: int)
    requires d != 0
    ensures Quotient(n, d) * d + Remainder(n, d) == n
    ensures Magnitude(Remainder(n, d)) < Magnitude(d)
    ensures n >= 0 ==> Remainder(n, d) >= 0
    ensures n <= 0 ==> Remainder(n, d) <= 0
  {
    hide Quotient;
    var a, b := Magnitude(n), Magnitude(d);
    var q, r := a / b, a % b;
    assert a == q * b + r;
    QuotientSign(n, d);
    SignsOfProduct(q, b);
  }

  lemma QuotientSign(n: int, d: int)
    requires d != 0
    ensures Quotient(n, d) == if (n >= 0) == (d > 0) then Magnitude(n) / Magnitude(d)
            else -(Magnitude(n) / Magnitude(d))
  {
  }

  lemma SignsOfProduct(q: int, b: int)
    ensures q * -b == -(q * b) && -q * b == -(q * b) && -q * -b == q * b
  {
  }

  function Magnitude(x: int): nat { if x < 0 then -x else x }

  /** The only signed quotient that overflows is the most negative word by minus one. */
  lemma DivisionOverflow(left: Word, right: Word)
    requires right != 0
    ensures FitsSigned(Quotient(Signed(left), Signed(right))) <==>
            !(Signed(left) == -0x8000_0000 && Signed(right) == -1)
    ensures FitsSigned(Remainder(Signed(left), Signed(right)))
  {
    TruncatedDivision(Signed(left), Signed(right));
    var a, b := Magnitude(Signed(left)), Magnitude(Signed(right));
    QuotientShrinks(a, b);
  }

  /** Bitwise complement. */
  lemma {:induction false} ComplementBits(x: nat, n: nat, k: nat)
    requires x < Pow2(n) && k < n
    ensures Bit(Pow2(n) - 1 - x, k) <==> !Bit(x, k)
    decreases n
  {
    assert (Pow2(n) - 1 - x) / 2 == Pow2(n - 1) - 1 - x / 2;
    if k > 0 { ComplementBits(x / 2, n - 1, k - 1); }
  }

  /** Each bit of a logical operation's result is that operation on the operands' bits. */
  lemma LogicalBits(left: Word, right: Word, k: nat)
    requires k < 32
    ensures Bit(ResultOf(Not, left, right), k) <==> !Bit(left, k)
    ensures Bit(ResultOf(AndOp, left, right), k) <==> Bit(left, k) && Bit(right, k)
    ensures Bit(ResultOf(OrOp, left, right), k) <==> Bit(left, k) || Bit(right, k)
    ensures Bit(ResultOf(XorOp, left, right), k) <==> Bit(left, k) != Bit(right, k)
    ensures Bit(ResultOf(Nand, left, right), k) <==> !(Bit(left, k) && Bit(right, k))
    ensures Bit(ResultOf(Nor, left, right), k) <==> !(Bit(left, k) || Bit(right, k))
  {
    hide And, Or, Xor, Bit, Pow2;
    WordWidths();
    BitwiseBound(left, right, 32);
    BitwiseBits(left, right, k);
    ComplementBits(left, 32, k);
    ComplementBits(And(left, right), 32, k);
    ComplementBits(Or(left, right), 32, k);
  }

  /** The operands, the result, the operation and its flags, as the machine sees them between two calls. */
  class Unit {
    var left: Word
    var right: Word
    var result: Word
    var op: Operation
    var flags: Flags

    constructor ()
      ensures IsReset()
    {
      left, right, result, op, flags := 0, 0, 0, NoOp, CLEAR;
    }

    predicate IsReset()
      reads this
    {
      left == 0 && right == 0 && result == 0 && op == NoOp && flags == CLEAR
    }

    method Reset()
      modifies this
      ensures IsReset()
    {
      left, right, result, op, flags := 0, 0, 0, NoOp, CLEAR;
    }

    /** alu_compute. Dividing by zero gives zero and no flags; an unknown operation leaves the result. */
    method Compute()
      modifies this`result, this`flags
      ensures Divides(op) && right == 0 ==> result == 0 && flags == CLEAR
      ensures !op.NoOp? && (Divides(op) ==> right != 0) ==>
                result == ResultOf(op, left, right) && flags == FlagsOf(op, left, right)
      ensures op.NoOp? ==> result == old(result) && flags == CLEAR
    {
      hide And, Or, Xor, Quotient, Remainder, Wrap, FlagsOf;
      flags := CLEAR;
      if Divides(op) && right == 0 {
        result := 0;
        return;
      }
      LogicalWords(left, right);
      match op {
        case Id => WrapWord(left); result := left;
        case Add => result := Wrap(left + right);
        case Sub => result := Wrap(left - right);
        case Mul => result := Wrap(left * right);
        case Div => QuotientShrinks(left, right); WrapWord(left / right); result := left / right;
        case Mod => WrapWord(left % right); result := left % right;
        case Not => WrapWord(left); result := WORD_MAX - left;
        case AndOp => WrapWord(And(left, right)); result := And(left, right);
        case OrOp => WrapWord(Or(left, right)); result := Or(left, right);
        case XorOp => WrapWord(Xor(left, right)); result := Xor(left, right);
        case Nand => WrapWord(And(left, right)); result := WORD_MAX - And(left, right);
        case Nor => WrapWord(Or(left, right)); result := WORD_MAX - Or(left, right);
        case Inc => result := Wrap(left + 1);
        case Dec => result := Wrap(left - 1);
        case SAdd => result := Wrap(SignedSum(left, right));
        case SSub => result := Wrap(SignedDifference(left, right));
        case SMul => result := Wrap(SignedProduct(left, right));
        case SDiv => result := Wrap(Quotient(Signed(left), Signed(right)));
        case SMod => result := Wrap(Remainder(Signed(left), Signed(right)));
        case NoOp => return;
      }
      SetFlags();
    }

    /** alu_setFlags, which looks at the operands again rather than at the exact result. */
    method SetFlags()
      requires !op.NoOp? && (Divides(op) ==> right != 0) && result == ResultOf(op, left, right)
      modifies this`flags
      ensures flags == FlagsOf(op, left, right)
    {
      hide And, Or, Xor, Quotient;
      flags := CLEAR.(z := result == 0, n := Signed(result) < 0);
      if IsSigned(op) {
        SetSignedFlags();
      } else {
        SetUnsignedFlags();
      }
    }

    method SetSignedFlags()
      requires IsSigned(op) && (Divides(op) ==> right != 0)
      requires flags == CLEAR.(z := result == 0, n := Signed(result) < 0)
      modifies this`flags
      ensures flags == old(flags).(s := true, v := !FitsSigned(Exact(op, left, right)))
    {
      hide Quotient, Remainder;
      flags := flags.(s := true);
      var l: int, r: int := Signed(left), Signed(right);
      if op.SAdd? {
        flags := flags.(v := l + r < -0x8000_0000 || l + r > 0x7FFF_FFFF);
      } else if op.SSub? {
        flags := flags.(v := l - r < -0x8000_0000 || l - r > 0x7FFF_FFFF);
      } else if op.SMul? {
        flags := flags.(v := l * r < -0x8000_0000 || l * r > 0x7FFF_FFFF);
      } else if op.SDiv? {
        DivisionOverflow(left, right);
        flags := flags.(v := l == -0x8000_0000 && r == -1);
      } else {
        DivisionOverflow(left, right);
      }
    }

    method SetUnsignedFlags()
      requires !IsSigned(op) && (Divides(op) ==> right != 0)
      requires flags == CLEAR.(z := result == 0, n := Signed(result) < 0)
      modifies this`flags
      ensures flags == old(flags).(c := FlagsOf(op, left, right).c)
    {
      hide And, Or, Xor, Quotient;
      if op.Add? {
        flags := flags.(c := left + right > WORD_MAX);
      } else if op.Sub? {
        flags := flags.(c := left >= right);
      } else if op.Mul? {
        flags := flags.(c := left * right > WORD_MAX);
      } else if op.Inc? {
        flags := flags.(c := left == WORD_MAX);
      } else if op.Dec? {
        flags := flags.(c := left >= 1);
      }
    }
  }

  lemma LogicalWords(left: Word, right: Word)
    ensures And(left, right) < WORD_RANGE && Or(left, right) < WORD_RANGE && Xor(left, right) < WORD_RANGE
  {
    WordWidths();
    BitwiseBound(left, right, 32);
  }
}
