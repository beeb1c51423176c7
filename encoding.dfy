/**
 * The pieces of Go's standard library that the wire protocol is built from:
 * fixed-width integers, `encoding/binary` in little-endian order,
 * `encoding/hex`, `strconv.ParseUint(s, 16, 32)`, `fmt.Sprintf("%04x", n)`
 * and the `string(b)` / `[]byte(s)` conversions.
 */
module Encoding {
  import opened Wrappers

  type byte = x: int | 0 <= x < 0x100
  type int8 = x: int | -0x80 <= x < 0x80
  type uint32 = x: int | 0 <= x < 0x1_0000_0000
  type int32 = x: int | -0x8000_0000 <= x < 0x8000_0000
  type int64 = x: int | -0x8000_0000_0000_0000 <= x < 0x8000_0000_0000_0000

  function Min(a: int, b: int): int { if a <= b then a else b }

  /** A zeroed buffer, as `make([]byte, n)` or a zero-valued array gives. */
  function Zeros(n: nat): (z: seq<byte>)
    ensures |z| == n && forall i :: 0 <= i < n ==> z[i] == 0
  {
    seq(n, _ => 0)
  }

  // ---------------------------------------------------------------------
  // Little-endian integers (binary.LittleEndian)
  // ---------------------------------------------------------------------

  function Pow256(w: nat): (p: nat)
    ensures p >= 1
  {
    if w == 0 then 1 else 256 * Pow256(w - 1)
  }

  lemma Pow256Widths()
    ensures Pow256(4) == 0x1_0000_0000
    ensures Pow256(8) == 0x1_0000_0000_0000_0000
  {
    assert Pow256(2) == 0x1_0000;
    assert Pow256(6) == 0x1_0000_0000_0000;
  }

  /** The `width` low-order bytes of `n`, least significant first. */
  function LeBytes(n: nat, width: nat): (b: seq<byte>)
    ensures |b| == width
    decreases width
  {
    if width == 0 then [] else [n % 256] + LeBytes(n / 256, width - 1)
  }

  /** The unsigned value of a little-endian byte string. */
  function LeValue(b: seq<byte>): (n: nat)
    ensures n < Pow256(|b|)
  {
    if b == [] then 0 else b[0] + 256 * LeValue(b[1..])
  }

  lemma {:induction false} LeValueOfBytes(n: nat, width: nat)
    requires n < Pow256(width)
    ensures LeValue(LeBytes(n, width)) == n
    decreases width
  {
    if width > 0 {
      assert n / 256 < Pow256(width - 1);
      LeValueOfBytes(n / 256, width - 1);
      var b := LeBytes(n, width);
      assert b[1..] == LeBytes(n / 256, width - 1);
    }
  }

  lemma {:induction false} LeBytesOfValue(b: seq<byte>)
    ensures LeBytes(LeValue(b), |b|) == b
  {
    if b != [] {
      LeBytesOfValue(b[1..]);
      var n := LeValue(b);
      assert n % 256 == b[0] && n / 256 == LeValue(b[1..]);
    }
  }

  /** Two's complement reading of 32 bits. */
  function Signed32(u: uint32): int32
  {
    if u < 0x8000_0000 then u else u - 0x1_0000_0000
  }

  /** The 32 bits of a signed value. */
  function Unsigned32(x: int32): (u: uint32)
    ensures Signed32(u) == x
    ensures x >= 0 ==> u == x
  {
    if x < 0 then x + 0x1_0000_0000 else x
  }

  function Signed64(u: nat): int64
    requires u < 0x1_0000_0000_0000_0000
  {
    if u < 0x8000_0000_0000_0000 then u else u - 0x1_0000_0000_0000_0000
  }

  function Unsigned64(x: int64): (u: nat)
    ensures u < 0x1_0000_0000_0000_0000 && Signed64(u) == x
    ensures x >= 0 ==> u == x
  {
    if x < 0 then x + 0x1_0000_0000_0000_0000 else x
  }

  /** Go's conversion `uint32(x)` of an `int64`: keeps the low 32 bits. */
  function Uint32Of(x: int64): (u: uint32)
    ensures (x - u) % 0x1_0000_0000 == 0
    ensures 0 <= x < 0x1_0000_0000 ==> u == x
  {
    x % 0x1_0000_0000
  }

  function DecodeU32(b: seq<byte>): uint32
    requires |b| == 4
  {
    Pow256Widths();
    LeValue(b)
  }

  function EncodeU32(x: uint32): (b: seq<byte>)
    ensures |b| == 4 && DecodeU32(b) == x
  {
    Pow256Widths();
    LeValueOfBytes(x, 4);
    LeBytes(x, 4)
  }

  /** Every four bytes are the encoding of the value they decode to. */
  lemma EncodeDecodeU32(b: seq<byte>)
    requires |b| == 4
    ensures EncodeU32(DecodeU32(b)) == b
  {
    LeBytesOfValue(b);
  }

  function DecodeI32(b: seq<byte>): int32
    requires |b| == 4
  {
    Signed32(DecodeU32(b))
  }

  function EncodeI32(x: int32): (b: seq<byte>)
    ensures |b| == 4 && DecodeI32(b) == x
  {
    EncodeU32(Unsigned32(x))
  }

  /** Every four bytes are the two's-complement encoding of the value they decode to. */
  lemma EncodeDecodeI32(b: seq<byte>)
    requires |b| == 4
    ensures EncodeI32(DecodeI32(b)) == b
  {
    EncodeDecodeU32(b);
  }

  function DecodeI64(b: seq<byte>): int64
    requires |b| == 8
  {
    Pow256Widths();
    Signed64(LeValue(b))
  }

  function EncodeI64(x: int64): (b: seq<byte>)
    ensures |b| == 8 && DecodeI64(b) == x
  {
    Pow256Widths();
    LeValueOfBytes(Unsigned64(x), 8);
    LeBytes(Unsigned64(x), 8)
  }

  // ---------------------------------------------------------------------
  // Hexadecimal digits (encoding/hex, strconv, fmt)
  // ---------------------------------------------------------------------

  predicate IsHexDigit(c: char)
  {
    '0' <= c <= '9' || 'a' <= c <= 'f' || 'A' <= c <= 'F'
  }

  predicate IsLowerHexDigit(c: char)
  {
    '0' <= c <= '9' || 'a' <= c <= 'f'
  }

  predicate AllHexDigits(s: string)
  {
    forall i :: 0 <= i < |s| ==> IsHexDigit(s[i])
  }

  function HexDigitValue(c: char): (v: nat)
    requires IsHexDigit(c)
    ensures v < 16
  {
    if c <= '9' then c as int - '0' as int
    else if c >= 'a' then c as int - 'a' as int + 10
    else c as int - 'A' as int + 10
  }

  function LowerHexDigit(v: nat): (c: char)
    requires v < 16
    ensures IsLowerHexDigit(c) && HexDigitValue(c) == v
  {
    if v < 10 then ('0' as int + v) as char else ('a' as int + v - 10) as char
  }

  /** hex.EncodeToString: two lower-case digits per byte, high nibble first. */
  function EncodeToString(b: seq<byte>): (s: string)
    ensures |s| == 2 * |b|
    ensures forall i :: 0 <= i < |s| ==> IsLowerHexDigit(s[i])
  {
    if b == [] then []
    else [LowerHexDigit(b[0] / 16), LowerHexDigit(b[0] % 16)] + EncodeToString(b[1..])
  }

  /** The bytes hex.Decode produces before it meets an invalid or unpaired digit. */
  function DecodedPrefix(s: string): (b: seq<byte>)
    ensures |b| <= |s| / 2
    ensures AllHexDigits(s) ==> |b| == |s| / 2
  {
    if |s| < 2 || !IsHexDigit(s[0]) || !IsHexDigit(s[1]) then []
    else
      assert AllHexDigits(s) ==> AllHexDigits(s[2..]);
      [16 * HexDigitValue(s[0]) + HexDigitValue(s[1])] + DecodedPrefix(s[2..])
  }

  datatype HexError = InvalidByte | OddLength

  /** hex.DecodeString: any non-hex character is InvalidByte, else an odd length is OddLength. */
  function DecodeString(s: string): (r: Result<seq<byte>, HexError>)
    ensures r.Ok? <==> AllHexDigits(s) && |s| % 2 == 0
    ensures r.Ok? ==> |r.value| == |s| / 2
  {
    if !AllHexDigits(s) then Err(InvalidByte)
    else if |s| % 2 == 1 then Err(OddLength)
    else Ok(DecodedPrefix(s))
  }

  lemma {:induction false} DecodeEncodeString(b: seq<byte>)
    ensures DecodedPrefix(EncodeToString(b)) == b
    ensures DecodeString(EncodeToString(b)) == Ok(b)
  {
    if b != [] {
      DecodeEncodeString(b[1..]);
      var s := EncodeToString(b);
      assert s[2..] == EncodeToString(b[1..]);
      assert 16 * (b[0] / 16) + b[0] % 16 == b[0];
    }
  }

  /** The value of a string of hex digits, most significant first. */
  function HexValue(s: string): nat
    requires AllHexDigits(s)
  {
    if s == [] then 0
    else
      assert AllHexDigits(s[..|s| - 1]);
      16 * HexValue(s[..|s| - 1]) + HexDigitValue(s[|s| - 1])
  }

  /** strconv.ParseUint(s, 16, 32): digits only (no sign, prefix or underscore), at most 32 bits. */
  function ParseUint(s: string): (r: Option<nat>)
    ensures r.Some? <==> |s| > 0 && AllHexDigits(s) && HexValue(s) < 0x1_0000_0000
    ensures r.Some? ==> r.value == HexValue(s)
  {
    if |s| == 0 || !AllHexDigits(s) then None
    else if HexValue(s) < 0x1_0000_0000 then Some(HexValue(s))
    else None
  }

  function Pow16(k: nat): (p: nat)
    ensures p >= 1 && (k >= 1 ==> p >= 16)
  {
    if k == 0 then 1 else 16 * Pow16(k - 1)
  }

  /** The shortest lower-case hex rendering of `n` ("0" for zero). */
  function HexDigits(n: nat): (s: string)
    ensures |s| >= 1 && forall i :: 0 <= i < |s| ==> IsLowerHexDigit(s[i])
    decreases n
  {
    if n < 16 then [LowerHexDigit(n)] else HexDigits(n / 16) + [LowerHexDigit(n % 16)]
  }

  function ZeroDigits(k: nat): (z: string)
    ensures |z| == k && forall i :: 0 <= i < k ==> z[i] == '0'
  {
    seq(k, _ => '0')
  }

  /** fmt.Sprintf("%04x", n): lower-case hex, padded with '0' to at least four characters. */
  function Sprintf04x(n: nat): (s: string)
    ensures |s| >= 4 && forall i :: 0 <= i < |s| ==> IsLowerHexDigit(s[i])
  {
    var d := HexDigits(n);
    if |d| < 4 then ZeroDigits(4 - |d|) + d else d
  }

  lemma {:induction false} HexDigitsWidth(n: nat, k: nat)
    requires k >= 1
    ensures |HexDigits(n)| <= k <==> n < Pow16(k)
    decreases n
  {
    if n >= 16 && k >= 2 {
      HexDigitsWidth(n / 16, k - 1);
      assert n / 16 < Pow16(k - 1) <==> n < 16 * Pow16(k - 1);
    }
  }

  lemma {:induction false} HexValueOfDigits(n: nat)
    ensures HexValue(HexDigits(n)) == n
    decreases n
  {
    if n >= 16 {
      HexValueOfDigits(n / 16);
      var s := HexDigits(n);
      assert s[..|s| - 1] == HexDigits(n / 16);
    }
  }

  lemma {:induction false} HexValueOfZeros(k: nat)
    ensures HexValue(ZeroDigits(k)) == 0
  {
    if k > 0 {
      assert ZeroDigits(k)[..k - 1] == ZeroDigits(k - 1);
      HexValueOfZeros(k - 1);
    }
  }

  lemma {:induction false} HexValueIgnoresLeadingZeros(k: nat, s: string)
    requires AllHexDigits(s)
    ensures AllHexDigits(ZeroDigits(k) + s)
    ensures HexValue(ZeroDigits(k) + s) == HexValue(s)
    decreases |s|
  {
    var t := ZeroDigits(k) + s;
    assert AllHexDigits(t) by {
      forall i | 0 <= i < |t| ensures IsHexDigit(t[i]) {
        if i >= k { assert t[i] == s[i - k]; }
      }
    }
    if s == [] {
      assert t == ZeroDigits(k);
      HexValueOfZeros(k);
    } else {
      assert t[..|t| - 1] == ZeroDigits(k) + s[..|s| - 1];
      assert AllHexDigits(s[..|s| - 1]);
      HexValueIgnoresLeadingZeros(k, s[..|s| - 1]);
    }
  }

  /** The rendering fits the four-character width exactly when n <= 0xffff. */
  lemma Sprintf04xWidth(n: nat)
    ensures |Sprintf04x(n)| == 4 <==> n <= 0xffff
  {
    HexDigitsWidth(n, 4);
    assert Pow16(4) == 0x1_0000;
  }

  /** Reading a four-digit rendering back with ParseUint gives the number. */
  lemma Sprintf04xParses(n: nat)
    requires n <= 0xffff
    ensures ParseUint(Sprintf04x(n)) == Some(n)
  {
    HexValueOfDigits(n);
    var d := HexDigits(n);
    if |d| < 4 {
      HexValueIgnoresLeadingZeros(4 - |d|, d);
    }
  }

  // ---------------------------------------------------------------------
  // string(b) and []byte(s)
  // ---------------------------------------------------------------------

  /** Go's `string(b)`: one character per byte. */
  function StringOf(b: seq<byte>): (s: string)
    ensures |s| == |b| && forall i :: 0 <= i < |b| ==> s[i] as int == b[i]
  {
    seq(|b|, i requires 0 <= i < |b| => b[i] as char)
  }

  predicate IsByteString(s: string)
  {
    forall i :: 0 <= i < |s| ==> s[i] as int < 0x100
  }

  /** Go's `[]byte(s)` for a string of single-byte characters. */
  function BytesOf(s: string): (b: seq<byte>)
    requires IsByteString(s)
    ensures |b| == |s| && StringOf(b) == s
    ensures forall i :: 0 <= i < |s| ==> b[i] == s[i] as int
  {
    var b := seq(|s|, i requires 0 <= i < |s| => s[i] as int);
    assert StringOf(b) == s;
    b
  }

  /** []byte(fmt.Sprintf("%04x", n)): the length prefix of a frame. */
  function LengthPrefix(n: nat): (b: seq<byte>)
    ensures |b| == |Sprintf04x(n)| && StringOf(b) == Sprintf04x(n)
  {
    BytesOf(Sprintf04x(n))
  }

  /** The prefix is four bytes exactly when the length fits, and then reads back as the length. */
  lemma LengthPrefixFits(n: nat)
    ensures |LengthPrefix(n)| >= 4
    ensures |LengthPrefix(n)| == 4 <==> n <= 0xffff
    ensures n <= 0xffff ==> ParseUint(StringOf(LengthPrefix(n))) == Some(n)
  {
    Sprintf04xWidth(n);
    if n <= 0xffff {
      Sprintf04xParses(n);
    }
  }

  /** A length prefix that fits reads back from the front of anything it starts. */
  lemma LengthPrefixStarts(n: nat, rest: seq<byte>)
    requires n <= 0xffff
    ensures ParseUint(StringOf((LengthPrefix(n) + rest)[..4])) == Some(n)
  {
    LengthPrefixFits(n);
    assert (LengthPrefix(n) + rest)[..4] == LengthPrefix(n);
  }

  lemma StringOfInjective(a: seq<byte>, b: seq<byte>)
    requires StringOf(a) == StringOf(b)
    ensures a == b
  {
    assert |a| == |b|;
    forall i | 0 <= i < |a| ensures a[i] == b[i] {
      assert StringOf(a)[i] == StringOf(b)[i];
    }
  }
}
