/**
  Machine integers, little-endian byte strings, and the two views of a byte
  buffer used throughout: overwriting a range (Splice) and a region that is
  written front to back over zeros (Fill).
 */
module Bytes {
  import opened Bits

  type Byte = x: int | 0 <= x < 0x100
  type Word = x: int | 0 <= x < 0x1_0000_0000
  type DWord = x: int | 0 <= x < 0x1_0000_0000_0000_0000

  /** C strings: the terminating NUL is not part of the value and no NUL occurs inside. */
  type Char8 = x: int | 0 < x < 0x100 witness 1
  type CString = seq<Char8>

  const WORD_RANGE: int := 0x1_0000_0000
  const WORD_MAX: int := 0xFFFF_FFFF
  const SIZE_RANGE: int := 0x1_0000_0000_0000_0000

  /** ROM takes the addresses below this; the linker and the machine must agree on it. */
  const ROM_SIZE := 4096

  /** Bytes without a NUL as a C string. */
  function AsCString(s: seq<Byte>): (c: CString)
    requires forall i :: 0 <= i < |s| ==> s[i] != 0
    ensures c == s
  {
    s
  }

  /** A C string's characters as bytes. */
  function AsBytes(text: CString): (b: seq<Byte>)
    ensures |b| == |text| && forall i :: 0 <= i < |b| ==> b[i] == text[i]
  {
    seq(|text|, i requires 0 <= i < |text| => text[i])
  }

  /** The low n bytes of v, least significant first. */
  function LE(v: nat, n: nat): (s: seq<Byte>)
    ensures |s| == n
  {
    if n == 0 then [] else [v % 256] + LE(v / 256, n - 1)
  }

  function FromLE(s: seq<Byte>): nat {
    if s == [] then 0 else s[0] + 256 * FromLE(s[1..])
  }

  lemma {:induction false} Pow2Bytes(n: nat)
    ensures Pow2(8 * n + 8) == 256 * Pow2(8 * n)
  {
    Pow2Add(8, 8 * n);
    assert Pow2(8) == 256;
  }

  lemma {:induction false} FromLEBound(s: seq<Byte>)
    ensures FromLE(s) < Pow2(8 * |s|)
  {
    if s != [] {
      FromLEBound(s[1..]);
      Pow2Bytes(|s| - 1);
    }
  }

  /** Writing and reading back gives the value modulo its width. */
  lemma {:induction false} ReadBack(v: nat, n: nat)
    ensures FromLE(LE(v, n)) == v % Pow2(8 * n)
    decreases n
  {
    if n > 0 {
      var p := Pow2(8 * (n - 1));
      ReadBack(v / 256, n - 1);
      Pow2Bytes(n - 1);
      assert LE(v, n)[1..] == LE(v / 256, n - 1);
      ModScale(v, 256, p);
    }
  }

  lemma {:induction false} WriteBack(s: seq<Byte>)
    ensures LE(FromLE(s), |s|) == s
  {
    if s != [] {
      WriteBack(s[1..]);
      LowByte(s[0], FromLE(s[1..]));
      assert s == [s[0]] + s[1..];
    }
  }

  lemma LowByte(b: Byte, high: nat)
    ensures (b + 256 * high) % 256 == b && (b + 256 * high) / 256 == high
  {
  }

  lemma WordWidths()
    ensures Pow2(8) == 0x100 && Pow2(16) == 0x1_0000 && Pow2(24) == 0x100_0000
    ensures Pow2(32) == 0x1_0000_0000
    ensures Pow2(64) == 0x1_0000_0000_0000_0000
  {
    assert Pow2(8) == 0x100;
    Pow2Add(8, 8);
    Pow2Add(8, 16);
    Pow2Add(16, 16);
    Pow2Add(32, 32);
  }

  lemma ReadBackWord(v: Word)
    ensures FromLE(LE(v, 4)) == v
  {
    ReadBack(v, 4);
    WordWidths();
    ModSmall(v, Pow2(32));
  }

  lemma FromLEWord(s: seq<Byte>)
    requires |s| == 4
    ensures FromLE(s) < WORD_RANGE
  {
    FromLEBound(s);
    WordWidths();
  }

  /** The i-th byte is the value shifted right by 8 * i and truncated. */
  lemma {:induction false} LEAt(v: nat, n: nat, i: nat)
    requires i < n
    ensures LE(v, n)[i] == v / Pow2(8 * i) % 256
  {
    if i > 0 {
      LEAt(v / 256, n - 1, i - 1);
      Pow2Bytes(i - 1);
      DivDiv(v, 256, Pow2(8 * (i - 1)));
    }
  }

  lemma DivDiv(x: nat, a: nat, b: nat)
    requires a > 0 && b > 0
    ensures (x / a) / b == x / (a * b)
  {
    var q, r := (x / a) / b, (x / a) % b;
    ScaleBound(r, a, b);
    assert x == a * (x / a) + x % a;
    Distribute(a, q, b, r);
    DivModUnique(x, a * b, q, a * r + x % a);
  }

  lemma {:induction false} FromLEAppend(s: seq<Byte>, b: Byte)
    ensures FromLE(s + [b]) == FromLE(s) + b * Pow2(8 * |s|)
  {
    hide Pow2;
    if s == [] {
      assert s + [b] == [b] && Pow2(8 * 0) == 1 by { PowZero(); }
    } else {
      FromLEAppend(s[1..], b);
      assert (s + [b])[1..] == s[1..] + [b];
      Pow2Bytes(|s| - 1);
      TimesByte(b, Pow2(8 * (|s| - 1)));
    }
  }

  lemma TimesByte(b: nat, p: nat)
    ensures 256 * (b * p) == b * (256 * p)
  {
  }

  /** Or-ing the next byte in at its position extends the number by that byte. */
  lemma OrAppends(low: seq<Byte>, b: Byte)
    ensures Or(FromLE(low), b * Pow2(8 * |low|)) == FromLE(low + [b])
  {
    FromLEAppend(low, b);
    FromLEBound(low);
    OrIsAdd(FromLE(low), b, 8 * |low|);
  }

  function Zeros(n: nat): (s: seq<Byte>)
    ensures |s| == n
  {
    seq(n, _ => 0)
  }

  /** s with the bytes from `offset` on replaced by b. */
  function Splice(s: seq<Byte>, offset: nat, b: seq<Byte>): (r: seq<Byte>)
    requires offset + |b| <= |s|
    ensures |r| == |s|
    ensures forall i :: 0 <= i < |s| ==> r[i] == if offset <= i < offset + |b| then b[i - offset] else s[i]
  {
    s[..offset] + b + s[offset + |b|..]
  }

  lemma SpliceSplice(s: seq<Byte>, offset: nat, x: seq<Byte>, y: seq<Byte>)
    requires offset + |x| + |y| <= |s|
    ensures Splice(Splice(s, offset, x), offset + |x|, y) == Splice(s, offset, x + y)
  {
  }

  /** A region of n bytes whose front has been written. */
  function Fill(written: seq<Byte>, n: nat): (s: seq<Byte>)
    requires |written| <= n
    ensures |s| == n
  {
    written + Zeros(n - |written|)
  }

  lemma FillAppend(a: seq<Byte>, written: seq<Byte>, n: nat, b: seq<Byte>, more: seq<Byte>)
    requires |written| + |more| <= n
    ensures Splice(a + Fill(written, n) + b, |a| + |written|, more) == a + Fill(written + more, n) + b
  {
  }

  lemma FillFull(written: seq<Byte>)
    ensures Fill(written, |written|) == written
  {
  }

  /** Stores the low `size` bytes of `value`, as put16, put32 and write32 do. */
  method Put(output: array<Byte>, offset: nat, value: nat, size: nat)
    requires offset + size <= output.Length
    modifies output
    ensures output[..] == Splice(old(output[..]), offset, LE(value, size))
  {
    for index := 0 to size
      invariant forall i :: 0 <= i < output.Length ==>
                  output[i] == if offset <= i < offset + index then LE(value, size)[i - offset] else old(output[i])
    {
      LEAt(value, size, index);
      output[offset + index] := value / Pow2(index * 8) % 256;
    }
    assert output[..] == Splice(old(output[..]), offset, LE(value, size));
  }

  /** Reads `size` bytes by repeated shift-and-or, as get16, get32 and the decoders do. */
  method Get(input: seq<Byte>, offset: nat, size: nat) returns (value: nat)
    requires offset + size <= |input|
    ensures value == FromLE(input[offset..offset + size])
  {
    hide Or, Pow2;
    value := 0;
    for index := 0 to size
      invariant value == FromLE(input[offset..offset + index])
    {
      ghost var low := input[offset..offset + index];
      assert input[offset..offset + index + 1] == low + [input[offset + index]];
      OrAppends(low, input[offset + index]);
      value := Or(value, input[offset + index] * Pow2(index * 8));
    }
  }
}
