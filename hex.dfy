/**
 * The byte/hex codec every protocol file carries a copy of: `hexToBytes`,
 * `bytesToHex` and `numberToBytes`.
 *
 * A byte is an `int` in 0..255.  Hex text is canonical when it is upper-case
 * with two characters per byte, which is what `bytesToHex` produces;
 * `hexToBytes` also accepts lower-case digits, as `parseInt(pair, 16)` does.
 */
module Hex {

  import opened Bits
  import opened Wrappers

  predicate IsByte(b: int)
  {
    0 <= b < 256
  }

  predicate IsBytes(bs: seq<int>)
  {
    forall i :: 0 <= i < |bs| ==> IsByte(bs[i])
  }

  /** One upper-case hex digit, as `toString(16)` followed by `toUpperCase()` renders it. */
  function HexDigit(n: int): (c: char)
    requires 0 <= n < 16
  {
    if n < 10 then ('0' as int + n) as char else ('A' as int + n - 10) as char
  }

  /** A character that `parseInt(_, 16)` reads as a digit. */
  predicate IsHexChar(c: char)
  {
    '0' <= c <= '9' || 'A' <= c <= 'F' || 'a' <= c <= 'f'
  }

  predicate IsUpperHexChar(c: char)
  {
    '0' <= c <= '9' || 'A' <= c <= 'F'
  }

  /** The value of one hex digit, either case. */
  function DigitValue(c: char): (n: int)
    requires IsHexChar(c)
    ensures 0 <= n < 16
  {
    if c <= '9' then c as int - '0' as int
    else if c <= 'F' then c as int - 'A' as int + 10
    else c as int - 'a' as int + 10
  }

  /** Hex text as `hexToBytes` expects it: whole pairs of hex digits. */
  predicate IsHex(s: string)
  {
    |s| % 2 == 0 && forall i :: 0 <= i < |s| ==> IsHexChar(s[i])
  }

  /** Hex text in the canonical form `bytesToHex` emits. */
  predicate IsUpperHex(s: string)
  {
    |s| % 2 == 0 && forall i :: 0 <= i < |s| ==> IsUpperHexChar(s[i])
  }

  /** One byte as two upper-case digits (`padStart(2, '0')`). */
  function ByteToHex(b: int): (s: string)
    requires IsByte(b)
    ensures |s| == 2 && IsUpperHexChar(s[0]) && IsUpperHexChar(s[1])
    ensures DigitValue(s[0]) * 16 + DigitValue(s[1]) == b
  {
    [HexDigit(b / 16), HexDigit(b % 16)]
  }

  /** The byte that a pair of hex digits denotes (`parseInt(pair, 16)`). */
  function PairValue(hi: char, lo: char): (b: int)
    requires IsHexChar(hi) && IsHexChar(lo)
    ensures IsByte(b)
  {
    DigitValue(hi) * 16 + DigitValue(lo)
  }

  /** `hexToBytes`: every pair of digits, left to right, becomes one byte. */
  function HexToBytes(s: string): (bs: seq<int>)
    requires IsHex(s)
    ensures |bs| == |s| / 2 && IsBytes(bs)
    decreases |s|
  {
    if s == [] then [] else [PairValue(s[0], s[1])] + HexToBytes(s[2..])
  }

  /** `bytesToHex`: two upper-case digits per byte. */
  function BytesToHex(bs: seq<int>): (s: string)
    requires IsBytes(bs)
    ensures |s| == 2 * |bs| && IsUpperHex(s) && IsHex(s)
    decreases |bs|
  {
    if bs == [] then "" else ByteToHex(bs[0]) + BytesToHex(bs[1..])
  }

  /** `hexToBytes` reads the bytes `bytesToHex` renders back unchanged. */
  lemma {:induction false} HexRoundTrip(bs: seq<int>)
    requires IsBytes(bs)
    ensures HexToBytes(BytesToHex(bs)) == bs
    decreases |bs|
  {
    if bs != [] {
      var s := BytesToHex(bs);
      assert s[2..] == BytesToHex(bs[1..]);
      HexRoundTrip(bs[1..]);
    }
  }

  /** Byte `i` of `HexToBytes(s)` is the pair of digits at 2i and 2i+1. */
  lemma {:induction false} HexToBytesAt(s: string, i: int)
    requires IsHex(s) && 0 <= i < |s| / 2
    ensures HexToBytes(s)[i] == PairValue(s[2 * i], s[2 * i + 1])
    decreases |s|
  {
    if i > 0 {
      HexToBytesAt(s[2..], i - 1);
    }
  }

  /** An upper-case digit is rendered back as itself. */
  lemma DigitRoundTrip(c: char)
    requires IsUpperHexChar(c)
    ensures HexDigit(DigitValue(c)) == c
  {
  }

  /** Canonical hex text is what `bytesToHex` makes of the bytes it denotes. */
  lemma {:induction false} HexCanonical(s: string)
    requires IsUpperHex(s)
    ensures BytesToHex(HexToBytes(s)) == s
    decreases |s|
  {
    if s != [] {
      var b := PairValue(s[0], s[1]);
      assert b / 16 == DigitValue(s[0]) && b % 16 == DigitValue(s[1]);
      DigitRoundTrip(s[0]);
      DigitRoundTrip(s[1]);
      assert ByteToHex(b) == s[..2];
      assert IsUpperHex(s[2..]);
      HexCanonical(s[2..]);
      assert HexToBytes(s)[1..] == HexToBytes(s[2..]);
      assert s == s[..2] + s[2..];
    }
  }

  /** Rendering distributes over concatenation. */
  lemma {:induction false} BytesToHexAppend(a: seq<int>, b: seq<int>)
    requires IsBytes(a) && IsBytes(b)
    ensures BytesToHex(a + b) == BytesToHex(a) + BytesToHex(b)
    decreases |a|
  {
    if a != [] {
      assert (a + b)[0] == a[0];
      assert (a + b)[1..] == a[1..] + b;
      BytesToHexAppend(a[1..], b);
    } else {
      assert a + b == b;
    }
  }

  /**
   * `hexToBytes` as the source writes it: a loop that pushes one parsed pair
   * per step.
   */
  method ParseHex(hex: string) returns (bytes: seq<int>)
    requires IsHex(hex)
    ensures bytes == HexToBytes(hex)
  {
    bytes := [];
    var i := 0;
    while i < |hex|
      invariant 0 <= i <= |hex| && i % 2 == 0
      invariant IsHex(hex[i..])
      invariant bytes + HexToBytes(hex[i..]) == HexToBytes(hex)
    {
      assert hex[i..][2..] == hex[i + 2..];
      bytes := bytes + [PairValue(hex[i], hex[i + 1])];
      i := i + 2;
    }
  }

  /** 256 to the power `k`. */
  function Pow256(k: nat): (p: nat)
    ensures p >= 1
  {
    if k == 0 then 1 else 256 * Pow256(k - 1)
  }

  /**
   * `(num >> (i * 8)) & 0xFF` on an integer.  JavaScript takes the shift count
   * modulo 32, so byte 4 repeats byte 0; shifting the 32-bit two's complement
   * pattern and masking is floor division followed by a non-negative remainder,
   * which is what Dafny's `/` and `%` compute for a positive divisor.
   */
  function ShiftedByte(num: int, i: nat): (b: int)
    ensures IsByte(b)
  {
    if i % 4 == 0 then num % 0x100
    else if i % 4 == 1 then (num / 0x100) % 0x100
    else if i % 4 == 2 then (num / 0x1_0000) % 0x100
    else (num / 0x100_0000) % 0x100
  }

  /** `numberToBytes(num, length)`: bytes `length - 1` down to 0 of `num`. */
  function BigEndian(num: int, length: int): (bs: seq<int>)
    ensures |bs| == if length <= 0 then 0 else length
    ensures IsBytes(bs)
    decreases length
  {
    if length <= 0 then [] else [ShiftedByte(num, length - 1)] + BigEndian(num, length - 1)
  }

  /** The number a big-endian byte string denotes: the value of all but the last byte, times 256, plus the last. */
  function BigEndianValue(bs: seq<int>): int
  {
    if bs == [] then 0 else BigEndianValue(bs[..|bs| - 1]) * 256 + bs[|bs| - 1]
  }

  /**
   * `numberToBytes` as the source writes it: a loop that pushes the byte for
   * shift `i * 8`, `i` counting down from `length - 1`.
   */
  method NumberToBytes(num: int, length: int) returns (bytes: seq<int>)
    ensures bytes == BigEndian(num, length)
  {
    bytes := [];
    var i := length - 1;
    ghost var target := BigEndian(num, length);
    while i >= 0
      invariant i < length
      invariant bytes + BigEndian(num, i + 1) == target
    {
      StepAppend(bytes, [ShiftedByte(num, i)], BigEndian(num, i), BigEndian(num, i + 1), target);
      bytes := bytes + [ShiftedByte(num, i)];
      i := i - 1;
    }
  }

  /** One step of an accumulating loop: moving `x` from the pending part to the done part. */
  lemma StepAppend<T>(done: seq<T>, x: seq<T>, rest: seq<T>, pending: seq<T>, target: seq<T>)
    requires pending == x + rest && done + pending == target
    ensures (done + x) + rest == target
  {
    assert (done + x) + rest == done + (x + rest);
  }

  /** Splitting off the low byte of a number modulo `256 * p`. */
  lemma DivModSplit(num: int, p: int)
    requires p >= 1
    ensures num % (256 * p) == ((num / 256) % p) * 256 + num % 256
  {
    var q, r := num / 256, num % 256;
    var a, b := q / p, q % p;
    SplitProduct(q, p, a, b);
    BoundProduct(b, p, r);
    DivModUnique(num, 256 * p, a, b * 256 + r);
  }

  lemma SplitProduct(q: int, p: int, a: int, b: int)
    requires q == p * a + b
    ensures 256 * q == a * (256 * p) + b * 256
  {
  }

  lemma BoundProduct(b: int, p: int, r: int)
    requires 0 <= b < p && 0 <= r < 256
    ensures 0 <= b * 256 + r < 256 * p
  {
  }

  /** For up to four bytes, the bytes above the last one are those of `num / 256`. */
  lemma {:induction false} BigEndianShift(num: int, length: nat)
    requires 1 <= length <= 4
    ensures BigEndian(num, length) == BigEndian(num / 256, length - 1) + [num % 256]
  {
    if length > 1 {
      BigEndianShift(num, length - 1);
      ShiftedByteOfQuotient(num, length - 1);
    }
  }

  /** Byte `i` of `num` is byte `i - 1` of `num / 256`, for the bytes a shift below 32 reaches. */
  lemma ShiftedByteOfQuotient(num: int, i: nat)
    requires 1 <= i <= 3
    ensures ShiftedByte(num, i) == ShiftedByte(num / 256, i - 1)
  {
    if i == 2 {
      DivideTwice(num, 0x100);
    } else if i == 3 {
      DivideTwice(num, 0x1_0000);
    }
  }

  /** Dividing by 256 and then by `d` is dividing by `256 * d`. */
  lemma DivideTwice(num: int, d: int)
    requires d >= 1
    ensures num / (256 * d) == (num / 256) / d
  {
    var q := num / 256;
    SplitProduct(q, d, q / d, q % d);
    BoundProduct(q % d, d, num % 256);
    DivModUnique(num, 256 * d, q / d, (q % d) * 256 + num % 256);
  }

  /**
   * `numberToBytes(num, length)` with `length <= 4` keeps exactly the low
   * `length` bytes of `num`: they recombine to `num` modulo `256^length`, so to
   * `num` itself when `0 <= num < 256^length`.
   */
  lemma {:induction false} BigEndianRecombines(num: int, length: nat)
    requires length <= 4
    ensures BigEndianValue(BigEndian(num, length)) == num % Pow256(length)
    decreases length
  {
    if length > 0 {
      var bs := BigEndian(num, length);
      BigEndianShift(num, length);
      assert bs[..|bs| - 1] == BigEndian(num / 256, length - 1);
      BigEndianRecombines(num / 256, length - 1);
      DivModSplit(num, Pow256(length - 1));
    }
  }

  /** `a | b` on two bytes, which is again a byte. */
  function OrByte(a: int, b: int): (r: int)
    requires IsByte(a) && IsByte(b)
    ensures IsByte(r)
  {
    assert Pow2(8) == 256;
    OrBound(a, b, 8);
    Or(a, b)
  }

  /** One lower-case hex digit, as `toString(16)` renders it. */
  function LowerHexDigit(n: int): (c: char)
    requires 0 <= n < 16
    ensures IsHexChar(c) && DigitValue(c) == n
  {
    if n < 10 then ('0' as int + n) as char else ('a' as int + n - 10) as char
  }

  /** `n.toString(16)` for `n >= 0`: lower-case digits, most significant first, no padding. */
  function LowerHexDigits(n: nat): (s: string)
    ensures |s| >= 1 && forall i :: 0 <= i < |s| ==> IsHexChar(s[i])
    ensures forall i :: 0 <= i < |s| ==> '0' <= s[i] <= '9' || 'a' <= s[i] <= 'f'
    ensures n > 0 ==> s[0] != '0'
    decreases n
  {
    if n < 16 then [LowerHexDigit(n)] else LowerHexDigits(n / 16) + [LowerHexDigit(n % 16)]
  }

  /** `n.toString(16)` for any integer: a minus sign, then the digits of `-n`. */
  function NumberToHexString(n: int): string
  {
    if n < 0 then "-" + LowerHexDigits(-n) else LowerHexDigits(n)
  }

  /** The number a string of hex digits denotes. */
  function DigitsValue(s: string): nat
    requires forall i :: 0 <= i < |s| ==> IsHexChar(s[i])
  {
    if s == [] then 0 else DigitsValue(s[..|s| - 1]) * 16 + DigitValue(s[|s| - 1])
  }

  /** Reading the digits `toString(16)` writes gives the number back. */
  lemma {:induction false} LowerHexRoundTrip(n: nat)
    ensures DigitsValue(LowerHexDigits(n)) == n
    decreases n
  {
    var s := LowerHexDigits(n);
    if n >= 16 {
      LowerHexRoundTrip(n / 16);
      assert s[..|s| - 1] == LowerHexDigits(n / 16);
    }
  }

  // parseInt(text, 16)

  /** The length of the longest prefix of hex digits. */
  function HexRun(s: string): (n: nat)
    ensures n <= |s| && forall i :: 0 <= i < n ==> IsHexChar(s[i])
    ensures n < |s| ==> !IsHexChar(s[n])
  {
    if s == [] || !IsHexChar(s[0]) then 0 else 1 + HexRun(s[1..])
  }

  /** The number the leading run of hex digits denotes; `None` when there is none. */
  function ReadHexDigits(digits: string): Option<nat>
  {
    var n := HexRun(digits);
    if n == 0 then None else Some(DigitsValue(digits[..n]))
  }

  /** Drops a leading "0x" or "0X". */
  function WithoutHexPrefix(s: string): string
  {
    if |s| >= 2 && s[0] == '0' && (s[1] == 'x' || s[1] == 'X') then s[2..] else s
  }

  /**
   * `parseInt(text, 16)` without leading white space: an optional sign, an
   * optional "0x", then as many hex digits as there are; `None` is NaN.
   */
  function ParseIntHex(text: string): Option<int>
  {
    if |text| > 0 && text[0] == '-' then
      match ParseUnsignedHex(text[1..]) case None => None case Some(v) => Some(-(v as int))
    else if |text| > 0 && text[0] == '+' then ParseUnsignedHex(text[1..])
    else ParseUnsignedHex(text)
  }

  /** The part after the sign: an optional "0x", then hex digits. */
  function ParseUnsignedHex(text: string): Option<nat>
  {
    ReadHexDigits(WithoutHexPrefix(text))
  }

  /** Text is read as hex: the digits `toString(16)` writes, with or without "0x", read back as the number. */
  lemma ParseIntHexRoundTrip(n: int)
    ensures ParseIntHex(NumberToHexString(n)) == Some(n)
    ensures n >= 0 ==> ParseIntHex("0x" + NumberToHexString(n)) == Some(n)
  {
    if n < 0 {
      ParseNegativeHex(-n);
    } else {
      ParseNonNegativeHex(n);
    }
  }

  lemma ParseNegativeHex(n: nat)
    ensures ParseIntHex("-" + LowerHexDigits(n)) == Some(-(n as int))
  {
    var digits := LowerHexDigits(n);
    ReadLowerHex(n);
    assert ("-" + digits)[1..] == digits;
  }

  lemma ParseNonNegativeHex(n: nat)
    ensures ParseIntHex(LowerHexDigits(n)) == Some(n)
    ensures ParseIntHex("0x" + LowerHexDigits(n)) == Some(n)
  {
    var digits := LowerHexDigits(n);
    ReadLowerHex(n);
    assert IsHexChar(digits[0]);
    assert ("0x" + digits)[2..] == digits;
  }

  /** `toString(16)` digits carry no "0x" and are read to their end. */
  lemma ReadLowerHex(n: nat)
    ensures WithoutHexPrefix(LowerHexDigits(n)) == LowerHexDigits(n)
    ensures ReadHexDigits(LowerHexDigits(n)) == Some(n)
  {
    var digits := LowerHexDigits(n);
    AllHexRun(digits);
    LowerHexRoundTrip(n);
    assert digits[..|digits|] == digits;
  }

  /** A string of hex digits is read to its end. */
  lemma {:induction false} AllHexRun(s: string)
    requires forall i :: 0 <= i < |s| ==> IsHexChar(s[i])
    ensures HexRun(s) == |s|
  {
    if s != [] {
      AllHexRun(s[1..]);
    }
  }
}
