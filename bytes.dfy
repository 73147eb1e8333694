/**
 * Bytes of a .NET `byte[]` and the integer that `new BigInteger(byte[])`
 * reads from them: little-endian, two's complement, with the empty array
 * standing for zero.
 */
module Bytes {

  /** An unsigned 8-bit value, as .NET's `byte`. */
  type byte = x: int | 0 <= x < 0x100

  /**
   * `b & 0x7F`: bit 7 cleared, the low seven bits kept. Written on the
   * integer value; ClearTopBitIsMask proves it is the bitwise and.
   */
  function ClearTopBit(b: byte): (r: byte)
    ensures r < 0x80
    ensures r % 0x80 == b % 0x80
  {
    b % 0x80
  }

  /**
   * `b | 0x80`: bit 7 set, the low seven bits kept. Written on the integer
   * value; SetTopBitIsMask proves it is the bitwise or.
   */
  function SetTopBit(b: byte): (r: byte)
    ensures 0x80 <= r
    ensures r % 0x80 == b % 0x80
  {
    b % 0x80 + 0x80
  }

  /** On every 8-bit pattern, ClearTopBit computes `x & 0x7F`. */
  lemma ClearTopBitIsMask(x: bv8)
    ensures ClearTopBit(x as int) == (x & 0x7F) as int
  {
  }

  /** On every 8-bit pattern, SetTopBit computes `x | 0x80`. */
  lemma SetTopBitIsMask(x: bv8)
    ensures SetTopBit(x as int) == (x | 0x80) as int
  {
  }

  /** 256 to the power n, the weight of byte n. */
  function Pow256(n: nat): (p: nat)
    ensures 1 <= p
  {
    if n == 0 then 1 else 0x100 * Pow256(n - 1)
  }

  /** The bytes read as an unsigned little-endian number; the last byte weighs most. */
  ghost function Unsigned(s: seq<byte>): nat
  {
    if s == [] then 0 else Unsigned(s[..|s| - 1]) + s[|s| - 1] * Pow256(|s| - 1)
  }

  /**
   * The value `new BigInteger(s)` denotes: the unsigned reading, less
   * 256^|s| when bit 7 of the last byte is set. The empty array is zero.
   */
  ghost function TwosComplement(s: seq<byte>): int
  {
    if s == [] then 0
    else if s[|s| - 1] < 0x80 then Unsigned(s)
    else Unsigned(s) - Pow256(|s|)
  }

  /**
   * A digit d placed above a remainder below p: the sum is below k * p when
   * d < k, and at least k * p when d >= k.
   */
  lemma DigitStep(low: nat, d: nat, p: nat, k: nat)
    requires low < p
    ensures d < k ==> low + d * p < k * p
    ensures k <= d ==> k * p <= low + d * p
  {
    if d < k {
      assert (d + 1) * p <= k * p;
    } else {
      assert k * p <= d * p;
    }
  }

  /** n bytes hold an unsigned number below 256^n. */
  lemma {:induction false} UnsignedBound(s: seq<byte>)
    ensures Unsigned(s) < Pow256(|s|)
  {
    if s != [] {
      var n := |s| - 1;
      UnsignedBound(s[..n]);
      DigitStep(Unsigned(s[..n]), s[n], Pow256(n), 0x100);
    }
  }

  /**
   * The sign of a non-empty array's value is decided by bit 7 of its last
   * byte alone: negative exactly when that bit is set.
   */
  lemma SignFromTopBit(s: seq<byte>)
    requires s != []
    ensures TwosComplement(s) < 0 <==> s[|s| - 1] >= 0x80
  {
    UnsignedBound(s);
  }

  /** Every value decoded from n > 0 bytes lies in [-256^n / 2, 256^n / 2). */
  lemma TwosComplementRange(s: seq<byte>)
    requires s != []
    ensures -(Pow256(|s|) as int / 2) <= TwosComplement(s) < Pow256(|s|) / 2
  {
    var n := |s| - 1;
    var p := Pow256(n);
    assert Pow256(|s|) / 2 == 0x80 * p;
    UnsignedBound(s[..n]);
    DigitStep(Unsigned(s[..n]), s[n], p, 0x80);
    if s[n] >= 0x80 {
      UnsignedBound(s);
    }
  }
}
