/** The bytes a data directive stands for. */
module Directives {
  import opened Wrappers
  import opened Bits
  import opened Bytes
  import opened Diagnostics
  import opened ImageFormat
  import opened ImageRoundTrip
  import opened Machine

  /** A directive's argument after its token has been read: a character is the byte it denotes. */
  datatype Value = Number(number: DWord) | Character(code: Byte) | Text(text: CString)

  datatype Data =
    | Numeric(width: nat, values: seq<DWord>)
    | Ascii(items: seq<Value>, terminated: bool)
    | Space(size: DWord)
  {
    /** .byte, .hword, .word and .dword are the numeric directives. */
    predicate Valid() {
      Numeric? ==> width == 1 || width == 2 || width == 4 || width == 8
    }
  }

  function MaxOf(width: nat): nat {
    if width == 1 then 0xFF else if width == 2 then 0xFFFF else if width == 4 then 0xFFFF_FFFF
    else 0xFFFF_FFFF_FFFF_FFFF
  }

  function NumericRows(values: seq<DWord>, width: nat): (rows: seq<seq<Byte>>)
    ensures |rows| == |values|
    ensures forall i :: 0 <= i < |rows| ==> |rows[i]| == width && rows[i] == LE(values[i], width)
  {
    seq(|values|, i requires 0 <= i < |values| => LE(values[i], width))
  }

  function NumericData(values: seq<DWord>, width: nat): Result<seq<Byte>, Diagnostic>
    requires width > 0
  {
    if |values| > (SIZE_RANGE - 1) / width then Err(OutputTooLarge)
    else if exists i :: 0 <= i < |values| && values[i] > MaxOf(width) then Err(ValueOutOfRange)
    else Ok(Flatten(NumericRows(values, width)))
  }

  function AsciiStep(written: seq<Byte>, item: Value): Result<seq<Byte>, Diagnostic> {
    if item.Number? && item.number > 0xFF then Err(ValueOutOfRange)
    else
      var more: seq<Byte> := if item.Text? then item.text else if item.Character? then [item.code] else [item.number];
      if |more| > SIZE_RANGE - 1 - |written| then Err(OutputTooLarge) else Ok(written + more)
  }

  function Appender(): (seq<Byte>, Value) -> Result<seq<Byte>, Diagnostic> {
    (written: seq<Byte>, item: Value) => AsciiStep(written, item)
  }

  function AsciiData(items: seq<Value>, terminated: bool): Result<seq<Byte>, Diagnostic> {
    var written := Fold(Appender(), [], items);
    if written.Err? || !terminated then written
    else if |written.value| == SIZE_RANGE - 1 then Err(OutputTooLarge)
    else Ok(written.value + [0])
  }

  /** directive_get_raw_data. */
  function RawData(d: Data): Result<seq<Byte>, Diagnostic>
    requires d.Valid()
  {
    match d
    case Numeric(width, values) => NumericData(values, width)
    case Ascii(items, terminated) => AsciiData(items, terminated)
    case Space(size) => Ok(Zeros(size))
  }

  lemma MaxIsWidth(width: nat)
    requires width == 1 || width == 2 || width == 4 || width == 8
    ensures MaxOf(width) == Pow2(8 * width) - 1
  {
    WordWidths();
  }

  /** Emitted numbers are found again at their places, each unchanged; a value that would change is refused. */
  lemma NumericReadsBack(values: seq<DWord>, width: nat, i: nat, at: nat)
    requires width == 1 || width == 2 || width == 4 || width == 8
    requires i < |values| && at == i * width && NumericData(values, width).Ok?
    ensures At(NumericData(values, width).value, at, LE(values[i], width))
    ensures FromLE(LE(values[i], width)) == values[i]
    ensures |NumericData(values, width).value| == width * |values|
  {
    hide LE, FromLE, Flatten, Pow2, NumericRows, MaxOf;
    var rows := NumericRows(values, width);
    RowOffset(rows, width, i, at);
    NumberFits(values[i], width);
    assert values[i] <= MaxOf(width);
  }

  /** Rows of one width are found at multiples of it. */
  lemma RowOffset(rows: seq<seq<Byte>>, width: nat, i: nat, at: nat)
    requires i < |rows| && at == i * width && forall k :: 0 <= k < |rows| ==> |rows[k]| == width
    ensures At(Flatten(rows), at, rows[i]) && |Flatten(rows)| == width * |rows|
  {
    hide Flatten;
    FlattenSlice(rows, i);
    FlattenWidth(rows, width);
    FlattenWidth(rows[..i], width);
    assert at == width * |rows[..i]|;
  }

  lemma NumberFits(value: DWord, width: nat)
    requires width == 1 || width == 2 || width == 4 || width == 8
    ensures value <= MaxOf(width) ==> FromLE(LE(value, width)) == value
  {
    hide LE, FromLE, Pow2;
    ReadBack(value, width);
    MaxIsWidth(width);
    ModSmall(value, Pow2(8 * width));
  }

  /** Data placed in memory reads back as its source values with the machine's scalar reads. */
  lemma EmittedDataReadsBack(m: State, values: seq<DWord>, width: nat, address: nat, i: nat, at: nat)
    requires m.Valid() && (width == 1 || width == 2 || width == 4 || width == 8)
    requires NumericData(values, width).Ok? && At(m.Memory(), address, NumericData(values, width).value)
    requires i < |values| && at == i * width
    ensures ReadScalar(m, address + at, width) == Read(m, values[i])
  {
    hide LE, FromLE, NumericData;
    NumericReadsBack(values, width, i, at);
    AtInner(m.Memory(), address, NumericData(values, width).value, at, LE(values[i], width), address + at);
  }

  /** Numbers are accepted exactly when each fits the width and all together fit the address space. */
  lemma NumbersAccepted(values: seq<DWord>, width: nat)
    requires width == 1 || width == 2 || width == 4 || width == 8
    ensures NumericData(values, width).Ok? <==>
            |values| * width < SIZE_RANGE && forall i :: 0 <= i < |values| ==> values[i] < Pow2(8 * width)
    ensures NumericData(values, width) == Err(OutputTooLarge) <==> |values| * width >= SIZE_RANGE
  {
    hide Flatten, Pow2, NumericRows;
    MaxIsWidth(width);
  }

  /** The bytes of one item of a string directive; only a number can be too large. */
  predicate Emits(item: Value, bytes: seq<Byte>) {
    match item
    case Text(text) => bytes == text
    case Character(code) => bytes == [code]
    case Number(number) => |bytes| == 1 && bytes[0] == number
  }

  /** Each row is what its item emits. */
  predicate EmitsAll(items: seq<Value>, rows: seq<seq<Byte>>) {
    |rows| == |items| && forall i :: 0 <= i < |items| ==> Emits(items[i], rows[i])
  }

  /**
    .ascii emits the characters of its strings, the codes of its characters and its small
    numbers one after the other, and .asciiz a zero behind them.
   */
  lemma TextEmitted(items: seq<Value>, terminated: bool, rows: seq<seq<Byte>>)
    requires EmitsAll(items, rows)
    ensures var bytes := Flatten(rows) + if terminated then [0] else [];
            AsciiData(items, terminated) == if |bytes| < SIZE_RANGE then Ok(bytes) else Err(OutputTooLarge)
  {
    hide Flatten, Fold, Emits;
    ItemsWritten(items, rows);
    assert Flatten(rows) + [] == Flatten(rows);
  }

  lemma {:induction false} ItemsWritten(items: seq<Value>, rows: seq<seq<Byte>>)
    requires EmitsAll(items, rows)
    ensures Fold(Appender(), [], items)
            == if |Flatten(rows)| < SIZE_RANGE then Ok(Flatten(rows)) else Err(OutputTooLarge)
  {
    if items != [] {
      var n := |items| - 1;
      ItemsWritten(items[..n], rows[..n]);
      assert Emits(items[n], rows[n]);
      if items[n].Number? { assert rows[n] == [items[n].number]; }
      assert Flatten(rows) == Flatten(rows[..n]) + rows[n];
    }
  }

  /** Without a number above 255 there are such rows; with one, the directive is refused. */
  lemma {:induction false} TextRefused(items: seq<Value>, terminated: bool)
    ensures (exists rows :: EmitsAll(items, rows)) <==>
            forall i :: 0 <= i < |items| && items[i].Number? ==> items[i].number <= 0xFF
    ensures (exists i :: 0 <= i < |items| && items[i].Number? && items[i].number > 0xFF) ==>
              AsciiData(items, terminated).Err?
  {
    if items == [] {
      assert EmitsAll(items, []);
    } else {
      var n := |items| - 1;
      TextRefused(items[..n], false);
      assert forall i :: 0 <= i < n ==> items[..n][i] == items[i];
      if forall i :: 0 <= i < |items| && items[i].Number? ==> items[i].number <= 0xFF {
        assert forall i :: 0 <= i < n && items[..n][i].Number? ==> items[..n][i].number <= 0xFF;
        var rows :| EmitsAll(items[..n], rows);
        var last: seq<Byte> := match items[n] case Text(text) => text case Character(code) => [code]
                                              case Number(number) => [number];
        assert EmitsAll(items, rows + [last]);
      }
      if rows :| EmitsAll(items, rows) {
        assert EmitsAll(items[..n], rows[..n]);
        assert Emits(items[n], rows[n]);
      }
    }
  }

  /** encode_numeric_data: values are checked and stored one after another in a buffer of the final size. */
  method EncodeNumericData(values: seq<DWord>, width: nat) returns (r: Result<seq<Byte>, Diagnostic>)
    requires width == 1 || width == 2 || width == 4 || width == 8
    ensures r == NumericData(values, width)
  {
    hide LE, Flatten;
    if |values| > (SIZE_RANGE - 1) / width {
      return Err(OutputTooLarge);
    }
    var output := new Byte[|values| * width](_ => 0);
    ghost var rows := NumericRows(values, width);
    assert rows[..0] == [];
    FlattenNothing<Byte>();
    for index := 0 to |values|
      invariant forall i :: 0 <= i < index ==> values[i] <= MaxOf(width)
      invariant index * width <= output.Length
      invariant output[..index * width] == Flatten(rows[..index])
    {
      if values[index] > MaxOf(width) {
        return Err(ValueOutOfRange);
      }
      FlattenStep(rows, index);
      NextPlace(index, |values|, width);
      StoreValue(output, index * width, values[index], width);
    }
    assert rows[..|values|] == rows;
    assert output[..|values| * width] == output[..];
    r := Ok(output[..]);
  }

  lemma FlattenNothing<T>()
    ensures Flatten<T>([]) == []
  {
  }

  lemma NextPlace(index: nat, count: nat, width: nat)
    requires index < count
    ensures index * width + width == (index + 1) * width <= count * width
  {
  }

  method StoreValue(output: array<Byte>, at: nat, value: nat, width: nat)
    requires at + width <= output.Length
    modifies output
    ensures output[..at] == old(output[..at])
    ensures output[..at + width] == old(output[..at]) + LE(value, width)
  {
    Put(output, at, value, width);
  }

  /** The string directives' loop, then the terminator of .asciiz. */
  method EncodeText(items: seq<Value>, terminated: bool) returns (r: Result<seq<Byte>, Diagnostic>)
    ensures r == AsciiData(items, terminated)
  {
    var output: seq<Byte> := [];
    for index := 0 to |items|
      invariant Fold(Appender(), [], items[..index]) == Ok(output)
    {
      FoldStep(Appender(), [], items, index);
      FoldPrefix(Appender(), [], items, index + 1);
      var value: seq<Byte>;
      match items[index] {
        case Text(text) => value := text;
        case Character(code) => value := [code];
        case Number(number) =>
          if number > 0xFF {
            return Err(ValueOutOfRange);
          }
          value := [number];
      }
      if |value| > SIZE_RANGE - 1 - |output| {
        return Err(OutputTooLarge);
      }
      output := output + value;
    }
    assert items[..|items|] == items;
    if terminated {
      if |output| == SIZE_RANGE - 1 {
        return Err(OutputTooLarge);
      }
      output := output + [0];
    }
    r := Ok(output);
  }

  method GetRawData(d: Data) returns (r: Result<seq<Byte>, Diagnostic>)
    requires d.Valid()
    ensures r == RawData(d)
  {
    match d {
      case Numeric(width, values) => r := EncodeNumericData(values, width);
      case Ascii(items, terminated) => r := EncodeText(items, terminated);
      case Space(size) => r := Ok(Zeros(size));
    }
  }
}
