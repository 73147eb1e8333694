/**
 * The byte-array generators of the logarithm tests. The shared
 * `System.Random` is replaced by the sequence of values its `Next` calls
 * return, in call order; each generator consumes a prefix of that sequence
 * and hands back the rest, so successive calls thread one source.
 */
module Generators {
  import opened Bytes

  /** The .NET exceptions the generators can raise. */
  datatype Fault =
    | Overflow          // `new byte[size]` with a negative size
    | IndexOutOfRange   // `value[value.Length - 1]` on an empty array

  /** A generator either returns its array or throws. */
  datatype Outcome<T> = Returned(value: T) | Thrown(fault: Fault)

  /** The first n draws are results of `Next(0, 256)`, so each is a byte. */
  ghost predicate ByteDraws(draws: seq<int>, n: int)
  {
    n <= |draws| && forall i :: 0 <= i < n ==> 0 <= draws[i] < 0x100
  }

  /**
   * `GetRandomByteArray(random, size)`: a fresh array of `size` bytes whose
   * byte i is draw i.
   */
  method GetRandomByteArray(draws: seq<int>, size: int) returns (r: Outcome<array<byte>>, rest: seq<int>)
    requires ByteDraws(draws, size)
    ensures size < 0 ==> r == Thrown(Overflow) && rest == draws
    ensures 0 <= size ==> r.Returned? && fresh(r.value) && r.value.Length == size
    ensures 0 <= size ==> r.value[..] == draws[..size] && rest == draws[size..]
  {
    if size < 0 {
      return Thrown(Overflow), draws;
    }
    var value := new byte[size];
    var i := 0;
    while i < value.Length
      invariant 0 <= i <= size
      invariant forall k :: 0 <= k < i ==> value[k] == draws[k]
    {
      value[i] := draws[i];
      i := i + 1;
    }
    r, rest := Returned(value), draws[size..];
  }

  /**
   * `GetRandomByteArray(random)`: the first draw, a result of
   * `Next(0, 100)`, is the length; that many byte draws follow.
   */
  method GetRandomByteArrayOfRandomLength(draws: seq<int>) returns (r: Outcome<array<byte>>, rest: seq<int>)
    requires draws != [] && 0 <= draws[0] < 100
    requires ByteDraws(draws[1..], draws[0])
    ensures r.Returned? && fresh(r.value) && r.value.Length == draws[0] < 100
    ensures r.value[..] == draws[1..1 + draws[0]] && rest == draws[1 + draws[0]..]
  {
    r, rest := GetRandomByteArray(draws[1..], draws[0]);
  }

  /**
   * `GetRandomPosByteArray(random, size)`: the draws, then `&= 0x7F` on the
   * last byte in place. The array it returns decodes to a non-negative
   * value; an empty request fails on the index.
   */
  method GetRandomPosByteArray(draws: seq<int>, size: int) returns (r: Outcome<array<byte>>, rest: seq<int>)
    requires ByteDraws(draws, size)
    ensures size < 0 ==> r == Thrown(Overflow) && rest == draws
    ensures size == 0 ==> r == Thrown(IndexOutOfRange) && rest == draws
    ensures 0 < size ==> r.Returned? && fresh(r.value) && r.value.Length == size && rest == draws[size..]
    ensures 0 < size ==> r.value[..size - 1] == draws[..size - 1] && r.value[size - 1] == ClearTopBit(draws[size - 1])
    ensures 0 < size ==> r.value[size - 1] < 0x80 && TwosComplement(r.value[..]) >= 0
  {
    var filled;
    filled, rest := GetRandomByteArray(draws, size);
    if filled.Thrown? {
      return filled, rest;
    }
    var value := filled.value;
    if value.Length == 0 {
      return Thrown(IndexOutOfRange), draws;
    }
    value[value.Length - 1] := ClearTopBit(value[value.Length - 1]);
    SignFromTopBit(value[..]);
    r := Returned(value);
  }

  /**
   * `GetRandomNegByteArray(random, size)`: the draws, then `|= 0x80` on the
   * last byte in place. The array it returns decodes to a negative value;
   * an empty request fails on the index.
   */
  method GetRandomNegByteArray(draws: seq<int>, size: int) returns (r: Outcome<array<byte>>, rest: seq<int>)
    requires ByteDraws(draws, size)
    ensures size < 0 ==> r == Thrown(Overflow) && rest == draws
    ensures size == 0 ==> r == Thrown(IndexOutOfRange) && rest == draws
    ensures 0 < size ==> r.Returned? && fresh(r.value) && r.value.Length == size && rest == draws[size..]
    ensures 0 < size ==> r.value[..size - 1] == draws[..size - 1] && r.value[size - 1] == SetTopBit(draws[size - 1])
    ensures 0 < size ==> r.value[size - 1] >= 0x80 && TwosComplement(r.value[..]) < 0
  {
    var filled;
    filled, rest := GetRandomByteArray(draws, size);
    if filled.Thrown? {
      return filled, rest;
    }
    var value := filled.value;
    if value.Length == 0 {
      return Thrown(IndexOutOfRange), draws;
    }
    value[value.Length - 1] := SetTopBit(value[value.Length - 1]);
    SignFromTopBit(value[..]);
    r := Returned(value);
  }
}
