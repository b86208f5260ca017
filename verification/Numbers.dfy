/**
  Numeric literals: how the characters of one are checked, relieved of their digit
  delimiters in place and folded into 64 bits, proved to give the
  number the literal denotes or to report that it does not fit.
 */
module Numbers {
  import opened Wrappers
  import opened Bits
  import opened Bytes
  import opened Diagnostics

  const NUL: Byte := 0
  const DELIMITER: Byte := 95

  const DWORD_MAX := 0xFFFF_FFFF_FFFF_FFFF

  // ----- digits -----

  /** The value of a digit in either case, whatever the base. */
  function DigitValue(c: Byte): Option<nat> {
    if 48 <= c <= 57 then Some(c - 48)
    else if 97 <= c <= 102 then Some(c - 87)
    else if 65 <= c <= 70 then Some(c - 55)
    else None
  }

  predicate Supported(base: nat) {
    base == 2 || base == 8 || base == 10 || base == 16
  }

  function ToLower(c: Byte): Byte {
    if 65 <= c <= 90 then c + 32 else c
  }

  /** is_digit_for_base, which tests characters without computing a value. */
  predicate IsDigitForBase(c: Byte, base: nat) {
    if 48 <= c <= 57 then c - 48 < base else base == 16 && 97 <= ToLower(c) <= 102
  }

  /** The lexer's test and the converter's agree in each base the lexer uses. */
  lemma DigitTestsAgree(c: Byte, base: nat)
    requires Supported(base)
    ensures IsDigitForBase(c, base) <==> DigitValue(c).Some? && DigitValue(c).value < base
    ensures !IsDigitForBase(DELIMITER, base)
  {
  }

  predicate AllDigits(s: seq<Byte>, base: nat) {
    forall i :: 0 <= i < |s| ==> IsDigitForBase(s[i], base)
  }

  predicate LegalAt(s: seq<Byte>, base: nat, i: nat)
    requires i < |s|
  {
    if s[i] == DELIMITER then 0 < i < |s| - 1 && IsDigitForBase(s[i - 1], base) && IsDigitForBase(s[i + 1], base)
    else IsDigitForBase(s[i], base)
  }

  /** Digits, with single delimiters between digits only. */
  predicate WellFormed(s: seq<Byte>, base: nat) {
    s != [] && forall i :: 0 <= i < |s| ==> LegalAt(s, base, i)
  }

  /** Digit groups with one delimiter between each two. */
  function Joined(groups: seq<seq<Byte>>): seq<Byte> {
    if groups == [] then []
    else if |groups| == 1 then groups[0]
    else Joined(groups[..|groups| - 1]) + [DELIMITER] + groups[|groups| - 1]
  }

  predicate DigitGroups(groups: seq<seq<Byte>>, base: nat) {
    groups != [] && forall g :: 0 <= g < |groups| ==> groups[g] != [] && AllDigits(groups[g], base)
  }

  lemma NotEmptyLiteral(s: seq<Byte>, base: nat)
    requires WellFormed(s, base)
    ensures s != []
  {
  }

  lemma WellFormedEnds(s: seq<Byte>, base: nat)
    requires Supported(base) && WellFormed(s, base)
    ensures IsDigitForBase(s[|s| - 1], base)
    ensures |s| > 1 && s[|s| - 2] != DELIMITER ==> WellFormed(s[..|s| - 1], base)
    ensures |s| > 1 && s[|s| - 2] == DELIMITER ==> |s| > 2 && WellFormed(s[..|s| - 2], base)
  {
    hide IsDigitForBase;
    DelimiterIsNoDigit(base);
    assert LegalAt(s, base, |s| - 1);
    if |s| > 1 {
      assert LegalAt(s, base, |s| - 2);
      var n := if s[|s| - 2] == DELIMITER then |s| - 2 else |s| - 1;
      forall i | 0 <= i < n ensures LegalAt(s[..n], base, i) {
        assert LegalAt(s, base, i);
        assert i == n - 1 ==> s[i] != DELIMITER;
      }
    }
  }

  /** A literal's characters are well formed only as groups of digits with single delimiters between them. */
  lemma {:induction false} WellFormedIsGroups(s: seq<Byte>, base: nat) returns (groups: seq<seq<Byte>>)
    requires Supported(base) && WellFormed(s, base)
    ensures DigitGroups(groups, base) && s == Joined(groups)
    decreases |s|
  {
    hide IsDigitForBase, WellFormed;
    NotEmptyLiteral(s, base);
    WellFormedEnds(s, base);
    var n, last := |s| - 1, [s[|s| - 1]];
    if n == 0 {
      groups := [s];
    } else if s[n - 1] == DELIMITER {
      groups := WellFormedIsGroups(s[..n - 1], base);
      assert (groups + [last])[..|groups|] == groups;
      assert s == s[..n - 1] + [DELIMITER] + last;
      groups := groups + [last];
    } else {
      groups := WellFormedIsGroups(s[..n], base);
      var m := |groups| - 1;
      var longer := groups[m := groups[m] + last];
      assert longer[..m] == groups[..m] && s == s[..n] + last;
      groups := longer;
    }
  }

  /** And such groups are well formed. */
  lemma {:induction false} GroupsAreWellFormed(groups: seq<seq<Byte>>, base: nat)
    requires Supported(base) && DigitGroups(groups, base)
    ensures WellFormed(Joined(groups), base)
    ensures Joined(groups) != [] && IsDigitForBase(Joined(groups)[|Joined(groups)| - 1], base)
  {
    hide IsDigitForBase;
    var m := |groups| - 1;
    DelimiterIsNoDigit(base);
    if m > 0 {
      GroupsAreWellFormed(groups[..m], base);
      GroupAppended(Joined(groups[..m]), groups[m], base);
    } else {
      forall i | 0 <= i < |groups[0]| ensures LegalAt(groups[0], base, i) {
        assert IsDigitForBase(groups[0][i], base);
      }
    }
  }

  lemma DelimiterIsNoDigit(base: nat)
    requires Supported(base)
    ensures !IsDigitForBase(DELIMITER, base)
  {
  }

  lemma GroupAppended(front: seq<Byte>, group: seq<Byte>, base: nat)
    requires Supported(base) && WellFormed(front, base) && IsDigitForBase(front[|front| - 1], base)
    requires group != [] && AllDigits(group, base)
    ensures WellFormed(front + [DELIMITER] + group, base)
  {
    hide IsDigitForBase;
    DelimiterIsNoDigit(base);
    var s := front + [DELIMITER] + group;
    forall i | 0 <= i < |s| ensures LegalAt(s, base, i) {
      if i < |front| {
        assert LegalAt(front, base, i) && s[i] == front[i];
        if i > 0 { assert s[i - 1] == front[i - 1]; }
        if i < |front| - 1 { assert s[i + 1] == front[i + 1]; }
      } else if i == |front| {
        assert s[i - 1] == front[i - 1] && s[i + 1] == group[0];
      } else {
        assert s[i] == group[i - |front| - 1];
      }
    }
  }

  /** Letters count from 10 in either case. */
  lemma LetterDigits(k: nat)
    requires k < 6
    ensures DigitValue(97 + k) == Some(10 + k) && DigitValue(65 + k) == Some(10 + k)
  {
  }

  function Appended(value: nat, base: nat, digit: nat): nat {
    value * base + digit
  }

  /** The number a digit string denotes; delimiters do not count. */
  function LiteralValue(s: seq<Byte>, base: nat): nat {
    if s == [] then 0
    else
      var front, last := s[..|s| - 1], s[|s| - 1];
      if last == DELIMITER || DigitValue(last).None? then LiteralValue(front, base)
      else Appended(LiteralValue(front, base), base, DigitValue(last).value)
  }

  /** What reading a literal should give. */
  function Meaning(s: seq<Byte>, base: nat): Result<DWord, Diagnostic> {
    if !WellFormed(s, base) then Err(MalformedNumber)
    else if LiteralValue(s, base) <= DWORD_MAX then Ok(LiteralValue(s, base))
    else Err(NumberOverflow)
  }

  /** validate_numeric_token. */
  method ValidateNumericToken(digits: seq<Byte>, base: nat) returns (ok: bool)
    ensures ok == WellFormed(digits, base)
  {
    if |digits| == 0 {
      return false;
    }
    for index := 0 to |digits|
      invariant forall i :: 0 <= i < index ==> LegalAt(digits, base, i)
    {
      var isDelimiter := digits[index] == DELIMITER;
      if (!isDelimiter && !IsDigitForBase(digits[index], base))
         || (isDelimiter && (index == 0 || index + 1 == |digits| || !IsDigitForBase(digits[index - 1], base)
                             || !IsDigitForBase(digits[index + 1], base)))
      {
        assert !LegalAt(digits, base, index);
        return false;
      }
    }
    ok := true;
  }

  // ----- removing delimiters -----

  function Stripped(s: seq<Byte>): (r: seq<Byte>)
    ensures |r| <= |s|
  {
    if s == [] then []
    else Stripped(s[..|s| - 1]) + if s[|s| - 1] == DELIMITER then [] else [s[|s| - 1]]
  }

  lemma StrippedNothing()
    ensures Stripped([]) == []
  {
  }

  lemma StrippedNext(s: seq<Byte>, k: nat)
    requires k < |s|
    ensures s[k] == DELIMITER ==> Stripped(s[..k + 1]) == Stripped(s[..k])
    ensures s[k] != DELIMITER ==> Stripped(s[..k + 1]) == Stripped(s[..k]) + [s[k]]
  {
    assert s[..k + 1][..k] == s[..k];
  }

  /** remove_digit_delimiters: compacts the buffer to the front and terminates it. */
  method RemoveDigitDelimiters(text: array<Byte>, size: nat) returns (ghost length: nat)
    requires size < text.Length
    modifies text
    ensures length == |Stripped(old(text[..size]))| <= size
    ensures text[..length] == Stripped(old(text[..size])) && text[length] == NUL
    ensures text[length + 1..] == old(text[length + 1..])
  {
    hide Stripped;
    var outputIndex := 0;
    StrippedNothing();
    ghost var before := text[..];
    for inputIndex := 0 to size
      invariant outputIndex == |Stripped(before[..inputIndex])| <= inputIndex
      invariant text[..outputIndex] == Stripped(before[..inputIndex])
      invariant forall p :: outputIndex <= p < text.Length ==> text[p] == before[p]
    {
      StrippedNext(before, inputIndex);
      if text[inputIndex] != DELIMITER {
        text[outputIndex] := text[inputIndex];
        outputIndex := outputIndex + 1;
      }
    }
    text[outputIndex] := NUL;
    length := outputIndex;
  }

  lemma OnlyDigits(s: seq<Byte>, base: nat)
    requires WellFormed(s, base)
    ensures forall i :: 0 <= i < |s| ==> s[i] == DELIMITER || IsDigitForBase(s[i], base)
    ensures s[0] != DELIMITER
  {
    forall i | 0 <= i < |s| ensures s[i] == DELIMITER || IsDigitForBase(s[i], base) {
      assert LegalAt(s, base, i);
    }
    assert LegalAt(s, base, 0);
  }

  /** Nothing is lost: a well-formed literal becomes a non-empty digit string with the same value. */
  lemma {:induction false} StrippedKeepsValue(s: seq<Byte>, base: nat)
    requires Supported(base)
    requires forall i :: 0 <= i < |s| ==> s[i] == DELIMITER || IsDigitForBase(s[i], base)
    ensures AllDigits(Stripped(s), base)
    ensures LiteralValue(Stripped(s), base) == LiteralValue(s, base)
    ensures s != [] && s[0] != DELIMITER ==> Stripped(s) != []
  {
    hide Appended, DigitValue, IsDigitForBase;
    if s != [] {
      var front := s[..|s| - 1];
      StrippedKeepsValue(front, base);
      var last := s[|s| - 1];
      if last != DELIMITER {
        DigitTestsAgree(last, base);
        assert Stripped(s)[..|Stripped(s)| - 1] == Stripped(front);
      } else {
        assert Stripped(s) == Stripped(front);
      }
    }
  }

  // ----- conversion -----

  /** The test made before a digit is folded in. */
  predicate WouldOverflow(value: nat, base: nat, digit: nat)
    requires base > 0 && digit <= DWORD_MAX
  {
    value > (DWORD_MAX - digit) / base
  }

  /** The overflow guard is exact: it fires for precisely the digits that do not fit. */
  lemma GuardExact(value: nat, digit: nat, base: nat)
    requires base > 0 && digit <= DWORD_MAX
    ensures WouldOverflow(value, base, digit) <==> Appended(value, base, digit) > DWORD_MAX
  {
    var room: nat := DWORD_MAX - digit;
    assert room == (room / base) * base + room % base;
    QuotientGuard(value, base, room, room / base, room % base);
  }

  lemma QuotientGuard(value: nat, base: nat, room: nat, q: int, r: nat)
    requires base > 0 && room == q * base + r && r < base
    ensures value > q <==> value * base > room
  {
    if value > q {
      MulMonotone(q + 1, value, base);
      assert (q + 1) * base == q * base + base;
    } else {
      MulMonotone(value, q, base);
    }
  }

  /** Longer digit strings denote at least as much. */
  lemma {:induction false} PrefixIsSmaller(s: seq<Byte>, base: nat, k: nat)
    requires base > 0 && k <= |s|
    ensures LiteralValue(s[..k], base) <= LiteralValue(s, base)
  {
    hide Appended;
    if k == |s| {
      assert s[..k] == s;
    } else {
      var front := s[..|s| - 1];
      assert front[..k] == s[..k];
      PrefixIsSmaller(front, base, k);
      var last := DigitValue(s[|s| - 1]);
      if last.Some? { AppendedGrows(LiteralValue(front, base), base, last.value); }
    }
  }

  lemma AppendedGrows(value: nat, base: nat, digit: nat)
    requires base > 0
    ensures Appended(value, base, digit) >= value
  {
    assert value * base >= value;
  }

  /** Where conversion stops: the first character that is no digit, or the end. */
  function DigitRun(s: seq<Byte>, base: nat, from: nat): (n: nat)
    requires from <= |s|
    ensures from <= n <= |s|
    ensures forall i :: from <= i < n ==> DigitValue(s[i]).Some? && DigitValue(s[i]).value < base
    ensures n < |s| ==> !(DigitValue(s[n]).Some? && DigitValue(s[n]).value < base)
    decreases |s| - from
  {
    if from < |s| && DigitValue(s[from]).Some? && DigitValue(s[from]).value < base then DigitRun(s, base, from + 1)
    else from
  }

  /** Conversion of any text: the digits before the first bad character must fit, then there must be none. */
  function Converted(s: seq<Byte>, base: nat): Result<DWord, Diagnostic> {
    var run := DigitRun(s, base, 0);
    if s == [] then Err(MalformedNumber)
    else if LiteralValue(s[..run], base) > DWORD_MAX then Err(NumberOverflow)
    else if run < |s| then Err(MalformedNumber)
    else Ok(LiteralValue(s[..run], base))
  }

  predicate IsDigitAt(s: seq<Byte>, base: nat, k: nat)
    requires k < |s|
  {
    DigitValue(s[k]).Some? && DigitValue(s[k]).value < base
  }

  lemma RunContinues(s: seq<Byte>, base: nat, k: nat)
    requires k < |s| && k <= DigitRun(s, base, 0)
    ensures IsDigitAt(s, base, k) <==> k < DigitRun(s, base, 0)
  {
  }

  lemma LiteralNext(s: seq<Byte>, base: nat, k: nat)
    requires k < |s| && IsDigitAt(s, base, k)
    ensures LiteralValue(s[..k + 1], base) == Appended(LiteralValue(s[..k], base), base, DigitValue(s[k]).value)
  {
    assert s[..k + 1][..k] == s[..k];
  }

  /** Once a prefix of the digits is too large, so are all of them. */
  lemma PrefixOverflows(s: seq<Byte>, base: nat, k: nat)
    requires Supported(base) && k <= DigitRun(s, base, 0) && LiteralValue(s[..k], base) > DWORD_MAX
    ensures Converted(s, base) == Err(NumberOverflow)
  {
    hide LiteralValue, DigitRun;
    var run := DigitRun(s, base, 0);
    PrefixIsSmaller(s[..run], base, k);
    assert s[..run][..k] == s[..k];
    assert s != [] by { if s == [] { NoDigits(base); } }
  }

  lemma NoDigits(base: nat)
    ensures LiteralValue([], base) == 0
  {
  }

  method ReadDigit(c: Byte) returns (r: Option<nat>)
    ensures r == DigitValue(c)
  {
    if 48 <= c <= 57 {
      return Some(c - 48);
    } else if 97 <= c <= 102 {
      return Some(c - 97 + 10);
    } else if 65 <= c <= 70 {
      return Some(c - 65 + 10);
    }
    r := None;
  }

  /** token_get_int_value. */
  method TokenIntValue(text: seq<Byte>, base: nat) returns (r: Result<DWord, Diagnostic>)
    requires Supported(base)
    ensures r == Converted(text, base)
  {
    hide DigitRun, Appended, WouldOverflow, LiteralValue, DigitValue;
    if |text| == 0 {
      return Err(MalformedNumber);
    }
    ghost var run := DigitRun(text, base, 0);
    NoDigits(base);
    var value: DWord := 0;
    for index := 0 to |text|
      invariant index <= run && value == LiteralValue(text[..index], base)
    {
      var digit := ReadDigit(text[index]);
      RunContinues(text, base, index);
      if digit.None? || digit.value >= base {
        return Err(MalformedNumber);
      }
      LiteralNext(text, base, index);
      GuardExact(value, digit.value, base);
      if WouldOverflow(value, base, digit.value) {
        PrefixOverflows(text, base, index + 1);
        return Err(NumberOverflow);
      }
      value := Appended(value, base, digit.value);
    }
    assert text[..run] == text;
    r := Ok(value);
  }

  /** On the digits of a well-formed literal conversion is exact and never finds the text malformed. */
  lemma ConvertedStripped(s: seq<Byte>, base: nat)
    requires Supported(base) && WellFormed(s, base)
    ensures Converted(Stripped(s), base) == Meaning(s, base)
    ensures Converted(Stripped(s), base) != Err(MalformedNumber)
  {
    hide LiteralValue, Stripped, DigitRun;
    var digits := Stripped(s);
    OnlyDigits(s, base);
    StrippedKeepsValue(s, base);
    var run := DigitRun(digits, base, 0);
    if run < |digits| {
      assert IsDigitForBase(digits[run], base);
      DigitTestsAgree(digits[run], base);
    }
    assert digits[..run] == digits;
  }

  // ----- every number has a literal -----

  function DigitCharacter(d: nat): (c: Byte)
    requires d < 16
    ensures DigitValue(c) == Some(d)
  {
    if d < 10 then 48 + d else 87 + d
  }

  function Leading(n: nat, base: nat): (q: nat)
    requires base >= 2
    ensures n > 0 ==> q < n
  {
    QuotientShrinks(n, base);
    n / base
  }

  function LastDigit(n: nat, base: nat): (d: nat)
    requires base >= 2
    ensures d < base
  {
    n % base
  }

  /** The usual numeral of n. */
  function Numeral(n: nat, base: nat): (s: seq<Byte>)
    requires 2 <= base <= 16
    decreases n
  {
    (if n < base then [] else Numeral(Leading(n, base), base)) + [DigitCharacter(LastDigit(n, base))]
  }

  lemma {:induction false} NumeralValue(n: nat, base: nat)
    requires Supported(base)
    ensures Numeral(n, base) != [] && AllDigits(Numeral(n, base), base)
    ensures LiteralValue(Numeral(n, base), base) == n
    decreases n
  {
    hide DigitValue, IsDigitForBase, Appended, Leading, LastDigit;
    var s, last := Numeral(n, base), DigitCharacter(LastDigit(n, base));
    DigitTestsAgree(last, base);
    QuotientAppended(n, base);
    if n < base {
      assert s == [last];
    } else {
      NumeralValue(Leading(n, base), base);
      assert s[..|s| - 1] == Numeral(Leading(n, base), base);
    }
  }

  /** Reading back a numeral gives the number, in every base, exactly up to the largest 64-bit value. */
  lemma NumeralRoundTrip(n: nat, base: nat)
    requires Supported(base)
    ensures Meaning(Numeral(n, base), base) == if n <= DWORD_MAX then Ok(n) else Err(NumberOverflow)
  {
    hide Numeral, LiteralValue, DigitValue, IsDigitForBase;
    NumeralValue(n, base);
    var s := Numeral(n, base);
    forall i | 0 <= i < |s| ensures LegalAt(s, base, i) {
      DigitTestsAgree(s[i], base);
    }
  }

  lemma QuotientAppended(n: nat, base: nat)
    requires base >= 2
    ensures Appended(Leading(n, base), base, LastDigit(n, base)) == n
    ensures n < base ==> LastDigit(n, base) == n && Appended(0, base, n) == n
  {
  }

  // ----- from characters to a value -----

  /** Checks the characters, strips a copy of them in place and converts what is left. */
  method Measure(digits: seq<Byte>, base: nat) returns (r: Result<DWord, Diagnostic>, kept: seq<Byte>)
    requires Supported(base)
    ensures r == Meaning(digits, base) && (r.Ok? ==> kept == Stripped(digits))
  {
    hide LiteralValue, Stripped, DigitRun, WellFormed, Converted;
    kept := [];
    var ok := ValidateNumericToken(digits, base);
    if !ok {
      return Err(MalformedNumber), kept;
    }
    var text := new Byte[|digits| + 1](i => if 0 <= i < |digits| then digits[i] else NUL);
    assert text[..|digits|] == digits;
    ghost var length := RemoveDigitDelimiters(text, |digits|);
    ghost var stripped := text[..length];
    NoNul(digits, base);
    var size := 0;
    while text[size] != NUL
      invariant size <= length
      decreases length - size
    {
      size := size + 1;
    }
    assert forall i :: 0 <= i < length ==> stripped[i] == text[i];
    ConvertedStripped(digits, base);
    kept := text[..size];
    r := TokenIntValue(kept, base);
  }

  /** strlen sees the whole stripped literal: a digit is not a terminator. */
  lemma NoNul(digits: seq<Byte>, base: nat)
    requires Supported(base) && WellFormed(digits, base)
    ensures forall i :: 0 <= i < |Stripped(digits)| ==> Stripped(digits)[i] != NUL
  {
    hide LiteralValue, Stripped;
    OnlyDigits(digits, base);
    StrippedKeepsValue(digits, base);
  }
}
